/** What the counter means: it accounts for the live objects plus what every
    operation in flight has committed but not yet done. */
module QuotaConservation {
  import opened Prelude
  import opened QuotaMachine

  // ── The quantity that is conserved ────────────────────────────────────────

  ghost function PickKey(m: Files): Path
    requires m != map[]
  {
    var p :| p in m; p
  }

  /** Total size of the objects that exist. */
  ghost function Live(m: Files): nat
    decreases |m|
  {
    if m == map[] then 0
    else var p := PickKey(m); assert |m - {p}| < |m| by { Shrinks(m, p); } m[p] + Live(m - {p})
  }

  lemma Shrinks(m: Files, p: Path)
    requires p in m
    ensures |m - {p}| < |m|
  {
    assert (m - {p}).Keys == m.Keys - {p};
    assert |m.Keys| == |m| && |(m - {p}).Keys| == |m - {p}|;
  }

  lemma {:induction false} LiveWithout(m: Files, p: Path)
    ensures Live(m) == SizeOf(m, p) + Live(m - {p})
    decreases |m|
  {
    if p !in m {
      assert m - {p} == m;
    } else {
      var q := PickKey(m);
      Shrinks(m, q);
      Shrinks(m, p);
      if q != p {
        LiveWithout(m - {q}, p);
        LiveWithout(m - {p}, q);
        assert m - {q} - {p} == m - {p} - {q};
      }
    }
  }

  lemma LiveSet(m: Files, p: Path, size: nat)
    ensures Live(m[p := size]) == Live(m) - SizeOf(m, p) + size
  {
    LiveWithout(m, p);
    LiveWithout(m[p := size], p);
    assert m[p := size] - {p} == m - {p};
  }

  /** Bytes the counter holds for an operation beyond what is on disk: a write
      between its commit and its rename, a delete between removal and credit. */
  function Pend(op: Op): int {
    match op.phase
    case CommitMark | Renaming => op.counted - op.prior
    case Falling | Retrying | Undoing =>
      if op.removed then op.counted else if op.placed then 0 else op.counted - op.prior
    case Applied | Crediting => op.prior
    case _ => 0
  }

  function SumPend(ops: seq<Op>): int {
    if ops == [] then 0 else SumPend(ops[..|ops| - 1]) + Pend(ops[|ops| - 1])
  }

  lemma {:induction false} SumPendSet(ops: seq<Op>, i: nat, op: Op)
    requires i < |ops|
    ensures SumPend(ops[i := op]) == SumPend(ops) - Pend(ops[i]) + Pend(op)
  {
    var last := |ops| - 1;
    if i == last {
      assert ops[i := op][..last] == ops[..last];
    } else {
      SumPendSet(ops[..last], i, op);
      assert ops[i := op][..last] == ops[..last][i := op];
    }
  }

  /** The value the counter holds, or would be loaded with. */
  function Counter(s: State): nat {
    match s.cell
    case Empty => s.persisted
    case Loading(v) => v
    case Full(bytes, _) => bytes
  }

  /** How far the counter is above what it should be. */
  ghost function Drift(s: State): int { Counter(s) - Live(s.files) - SumPend(s.ops) }

  // ── Invariant ─────────────────────────────────────────────────────────────

  predicate Captured(known: nat, actual: nat, exact: bool) {
    if exact then known == actual else known <= actual
  }

  /** What holds of one operation. `src` says that no copy source failed to be
      sized, `dst` that no target did. */
  predicate OpOk(files: Files, op: Op, src: bool, dst: bool) {
    var size := SizeOf(files, op.path);
    && op.kind.Delete? == (op.phase in {Queued, Applied, Crediting, CreditMark, Credited, Lost})
    && (op.kind.Write? ==> op.counted == op.staged)
    && (op.kind.Copy? ==> op.kind.from != op.path)
    && (op.kind.Copy? && op.phase == Closed ==> op.staged == SizeOf(files, op.kind.from))
    && (op.phase !in {Staging, Closed, Aborted} && op.kind.Copy? ==>
          op.counted == op.staged || (!src && op.counted == 0))
    && (op.phase in {Committing, CommitMark, Renaming, Queued} ==> Captured(op.prior, size, dst))
    && (op.phase in {Falling, Retrying, Undoing} ==>
          if op.removed then op.path !in files
          else if op.placed then op.path in files && size == op.staged
          else Captured(op.prior, size, dst))
    && (op.phase == Falling ==> !op.removed)
    && (op.phase in {Staging, Closed, Counted, Committing, CommitMark, Renaming} ==> !op.placed && !op.removed)
    && (op.phase in {Applied, Crediting} ==> op.path !in files)
  }

  predicate Apart(a: Op, b: Op) {
    && (!a.Over() && !b.Over() ==> a.path != b.path)
    && (!a.Over() && !b.Over() && a.kind.Copy? ==> a.kind.from != b.path)
  }

  ghost predicate OpsOk(s: State, src: bool, dst: bool) {
    && (forall i :: 0 <= i < |s.ops| ==> OpOk(s.files, s.ops[i], src, dst))
    && (forall i, j :: 0 <= i < |s.ops| && 0 <= j < |s.ops| && i != j ==> Apart(s.ops[i], s.ops[j]))
  }

  predicate CellOk(s: State) {
    && (!s.cell.Full? ==> s.sync.Idle? && s.resets == 0)
    && (s.cell.Loading? ==> s.cell.value == s.persisted)
  }

  ghost predicate Inv(s: State, src: bool, dst: bool) { OpsOk(s, src, dst) && CellOk(s) }

  /** The step does not fail to size a copy source. */
  predicate SourceSized(step: Step) { step.Act? && step.action.SizeSource? ==> step.action.sized }

  /** The step does not fail to size the object it will replace or remove. */
  predicate TargetSized(step: Step) {
    && (step.Act? && step.action.SizeTarget? ==> step.action.sized)
    && (step.BeginDelete? ==> step.sized)
  }

  /** A change of one path disturbs no operation that neither targets nor reads it. */
  lemma OtherOk(files: Files, next: Files, p: Path, op: Op, src: bool, dst: bool)
    requires OpOk(files, op, src, dst)
    requires forall q :: q != p ==> (q in files <==> q in next) && SizeOf(files, q) == SizeOf(next, q)
    requires !op.Over() ==> op.path != p && (op.kind.Copy? ==> op.kind.from != p)
    ensures OpOk(next, op, src, dst)
  {
  }

  lemma ExchangeOk(s: State, op: Op, a: Action, src: bool, dst: bool)
    requires CanAct(s, op, a) && OpOk(s.files, op, src, dst) && a.Exchange?
    ensures OpOk(ActFiles(s.files, op, a), ActOp(s, op, a), src, dst)
  {
    SeenOk(s.files, op, src, dst);
    LandedOk(s.files, op, src, dst);
    if op.phase == Committing { RejectedOk(s.files, op, src, dst); }
    assert op.phase != Committing ==> !Refused(s.limit, op);
    hide OpOk, Refused, Lands;
  }

  lemma SeenOk(files: Files, op: Op, src: bool, dst: bool)
    requires OpOk(files, op, src, dst)
    ensures forall seen :: OpOk(files, op.(seen := seen), src, dst)
  {
  }

  lemma LandedOk(files: Files, op: Op, src: bool, dst: bool)
    requires OpOk(files, op, src, dst) && op.InLoop()
    ensures OpOk(files, op.(phase := op.Landed(), seen := None), src, dst)
  {
  }

  lemma RejectedOk(files: Files, op: Op, src: bool, dst: bool)
    requires OpOk(files, op, src, dst) && op.phase == Committing
    ensures OpOk(files, op.(phase := Rejected, seen := None), src, dst)
  {
  }

  lemma ActorOk(s: State, op: Op, a: Action, src: bool, dst: bool)
    requires CanAct(s, op, a) && OpOk(s.files, op, src, dst)
    requires (src ==> SourceSized(Act(0, a))) && (dst ==> TargetSized(Act(0, a)))
    ensures OpOk(ActFiles(s.files, op, a), ActOp(s, op, a), src, dst)
  {
    if a.Exchange? {
      hide OpOk;
      ExchangeOk(s, op, a, src, dst);
    }
  }

  lemma ActorKeepsPath(s: State, op: Op, a: Action)
    requires CanAct(s, op, a)
    ensures var t := ActOp(s, op, a); t.path == op.path && t.kind == op.kind && !op.Over()
  {
  }

  lemma ActKeepsOps(s: State, i: nat, a: Action, src: bool, dst: bool)
    requires OpsOk(s, src, dst) && Enabled(s, Act(i, a))
    requires (src ==> SourceSized(Act(i, a))) && (dst ==> TargetSized(Act(i, a)))
    ensures OpsOk(NextAct(s, i, a), src, dst)
  {
    var t := NextAct(s, i, a);
    ActorOk(s, s.ops[i], a, src, dst);
    ActorKeepsPath(s, s.ops[i], a);
    forall k | 0 <= k < |t.ops|
      ensures OpOk(t.files, t.ops[k], src, dst)
    {
      if k != i {
        assert Apart(s.ops[i], s.ops[k]) && Apart(s.ops[k], s.ops[i]);
        OtherOk(s.files, t.files, s.ops[i].path, s.ops[k], src, dst);
      }
    }
    forall j, k | 0 <= j < |t.ops| && 0 <= k < |t.ops| && j != k
      ensures Apart(t.ops[j], t.ops[k])
    {
      assert Apart(s.ops[j], s.ops[k]);
    }
  }

  lemma RenameKeepsOps(s: State, from: Path, to: Path, src: bool, dst: bool)
    requires OpsOk(s, src, dst) && Enabled(s, UserRename(from, to))
    ensures OpsOk(Next(s, UserRename(from, to)), src, dst)
  {
    var mid := s.files - {from};
    var end := mid[to := s.files[from]];
    forall k | 0 <= k < |s.ops|
      ensures OpOk(end, s.ops[k], src, dst)
    {
      var op := s.ops[k];
      assert !op.Targets(from) && !op.Reads(from) && !op.Targets(to) && !op.Reads(to);
      OtherOk(s.files, mid, from, op, src, dst);
      OtherOk(mid, end, to, op, src, dst);
    }
  }

  lemma BeginKeepsOps(s: State, added: Op, src: bool, dst: bool)
    requires OpsOk(s, src, dst) && OpOk(s.files, added, src, dst) && Free(s, added.path)
    requires added.kind.Copy? ==> Stable(s, added.kind.from)
    ensures OpsOk(s.(ops := s.ops + [added]), src, dst)
  {
    var t := s.(ops := s.ops + [added]);
    forall j, k | 0 <= j < |t.ops| && 0 <= k < |t.ops| && j != k
      ensures Apart(t.ops[j], t.ops[k])
    {
      if j < |s.ops| && k < |s.ops| {
        assert Apart(s.ops[j], s.ops[k]);
      } else {
        var other := s.ops[if j < k then j else k];
        assert !other.Targets(added.path) && !other.Reads(added.path);
        assert added.kind.Copy? ==> !other.Targets(added.kind.from);
      }
    }
  }

  lemma InvStep(s: State, step: Step, src: bool, dst: bool)
    requires Inv(s, src, dst) && Enabled(s, step)
    requires (src ==> SourceSized(step)) && (dst ==> TargetSized(step))
    ensures Inv(Next(s, step), src, dst)
  {
    match step
    case BeginWrite(path) => BeginKeepsOps(s, FreshOp(Write, path, Staging, 0), src, dst);
    case BeginCopy(from, to) => BeginKeepsOps(s, FreshOp(Copy(from), to, Staging, 0), src, dst);
    case BeginDelete(path, batch, sized) =>
      BeginKeepsOps(s, FreshOp(Delete(batch), path, Queued, StatOf(s.files, path, sized)), src, dst);
    case Act(i, a) => ActKeepsOps(s, i, a, src, dst);
    case UserRename(from, to) => RenameKeepsOps(s, from, to, src, dst);
    case _ =>
  }

  // ── Every step moves the drift by a known amount ──────────────────────────

  /** Bytes by which an action makes the counter overstate what exists:
      saturation in the exchange, a captured size below the true one, a target
      removed by the fallback whose size a rollback then restores, a removed
      object that is never credited, and a copy whose source could not be sized.
      Rolling back a rename that took effect understates it. */
  function ActLeak(s: State, op: Op, a: Action): int
    requires CanAct(s, op, a)
  {
    var stale := SizeOf(s.files, op.path) - op.prior;
    match a
    case Exchange(_) =>
      if !Lands(s, op, a) then 0
      else Wanted(op) - (op.seen.value - op.Sub() + op.Add())
           + (if op.phase != Undoing then 0
              else if op.removed then op.prior
              else if op.placed then op.prior - op.counted else 0)
    case RenameTry(answer) => if answer.Failed? then 0 else stale + op.counted - op.staged
    case FallRemove(worked) =>
      if !worked then 0 else if op.placed then op.staged - op.counted else stale
    case RenameRetry(answer) =>
      if answer.Failed? || (op.placed && !op.removed) then 0
      else op.counted - op.staged + (if op.removed then 0 else stale)
    case ApplyDelete => stale
    case Forget => Pend(op)
    case _ => 0
  }

  function Leak(s: State, step: Step): int
    requires Enabled(s, step)
  {
    match step
    case Act(i, a) => ActLeak(s, s.ops[i], a)
    case UserRename(_, to) => SizeOf(s.files, to)
    case ResetStore => 0 - Counter(s)
    case Crash => s.persisted - Counter(s) + SumPend(s.ops)
    case _ => 0
  }

  /** Change of the total size on disk under an action. */
  function LiveDelta(files: Files, op: Op, a: Action): int {
    match a
    case RenameTry(answer) => if answer.Failed? then 0 else op.staged - SizeOf(files, op.path)
    case RenameRetry(answer) => if answer.Failed? then 0 else op.staged - SizeOf(files, op.path)
    case FallRemove(worked) => if worked then 0 - SizeOf(files, op.path) else 0
    case ApplyDelete => 0 - SizeOf(files, op.path)
    case _ => 0
  }

  lemma ActFilesLive(files: Files, op: Op, a: Action)
    ensures Live(ActFiles(files, op, a)) == Live(files) + LiveDelta(files, op, a)
  {
    LiveSet(files, op.path, op.staged);
    LiveWithout(files, op.path);
  }

  lemma ExchangeBalance(s: State, op: Op, a: Action)
    requires CanAct(s, op, a) && a.Exchange?
    ensures (if Lands(s, op, a) then Wanted(op) - s.cell.bytes else 0)
         == Pend(ActOp(s, op, a)) - Pend(op) + ActLeak(s, op, a)
  {
  }

  lemma ActBalance(s: State, op: Op, a: Action)
    requires CanAct(s, op, a) && OpOk(s.files, op, false, false) && !a.Exchange?
    ensures 0 == LiveDelta(s.files, op, a) + Pend(ActOp(s, op, a)) - Pend(op) + ActLeak(s, op, a)
  {
  }

  lemma ActDrift(s: State, i: nat, a: Action)
    requires OpsOk(s, false, false) && Enabled(s, Act(i, a))
    ensures Drift(NextAct(s, i, a)) == Drift(s) + ActLeak(s, s.ops[i], a)
  {
    var op := s.ops[i];
    SumPendSet(s.ops, i, ActOp(s, op, a));
    ActFilesLive(s.files, op, a);
    if a.Exchange? {
      ExchangeBalance(s, op, a);
    } else {
      assert OpOk(s.files, op, false, false);
      ActBalance(s, op, a);
    }
  }

  lemma DriftStep(s: State, step: Step)
    requires Inv(s, false, false) && Enabled(s, step)
    ensures Drift(Next(s, step)) == Drift(s) + Leak(s, step)
  {
    hide Drift, Next, Leak, Inv, Enabled;
    if step.Act? {
      ActStepDrift(s, step);
    } else if step.BeginWrite? || step.BeginCopy? || step.BeginDelete? {
      BeginStepDrift(s, step);
    } else if step.UserRename? {
      RenameStepDrift(s, step);
    } else {
      IdleStepDrift(s, step);
    }
  }

  lemma ActStepDrift(s: State, step: Step)
    requires Inv(s, false, false) && Enabled(s, step) && step.Act?
    ensures Drift(Next(s, step)) == Drift(s) + Leak(s, step)
  {
    hide Drift, ActLeak, OpOk, CanAct;
    ActDrift(s, step.i, step.action);
  }

  lemma BeginStepDrift(s: State, step: Step)
    requires Enabled(s, step) && (step.BeginWrite? || step.BeginCopy? || step.BeginDelete?)
    ensures Drift(Next(s, step)) == Drift(s) + Leak(s, step)
  {
    hide SumPend, Live;
    match step
    case BeginWrite(path) => BeginDrift(s.ops, FreshOp(Write, path, Staging, 0));
    case BeginCopy(from, to) => BeginDrift(s.ops, FreshOp(Copy(from), to, Staging, 0));
    case BeginDelete(path, batch, sized) =>
      BeginDrift(s.ops, FreshOp(Delete(batch), path, Queued, StatOf(s.files, path, sized)));
  }

  lemma RenameStepDrift(s: State, step: Step)
    requires Enabled(s, step) && step.UserRename?
    ensures Drift(Next(s, step)) == Drift(s) + Leak(s, step)
  {
    hide SumPend, Live, Free;
    RenameLive(s.files, step.from, step.to);
  }

  lemma IdleStepDrift(s: State, step: Step)
    requires Inv(s, false, false) && Enabled(s, step)
    requires !step.Act? && !step.BeginWrite? && !step.BeginCopy? && !step.BeginDelete? && !step.UserRename?
    ensures Drift(Next(s, step)) == Drift(s) + Leak(s, step)
  {
    assert SumPend([]) == 0;
    hide SumPend, Live, OpsOk, Free;
  }

  lemma BeginDrift(ops: seq<Op>, added: Op)
    ensures SumPend(ops + [added]) == SumPend(ops) + Pend(added)
  {
    assert (ops + [added])[..|ops|] == ops;
  }

  lemma RenameLive(files: Files, from: Path, to: Path)
    requires from in files && from != to
    ensures Live((files - {from})[to := files[from]]) == Live(files) - SizeOf(files, to)
  {
    LiveWithout(files, from);
    LiveSet(files - {from}, to, files[from]);
  }

  lemma Weaken(s: State, src: bool, dst: bool)
    requires Inv(s, src, dst)
    ensures Inv(s, src, false) && Inv(s, false, false)
  {
    forall i | 0 <= i < |s.ops|
      ensures OpOk(s.files, s.ops[i], src, false) && OpOk(s.files, s.ops[i], false, false)
    {
      assert OpOk(s.files, s.ops[i], src, dst);
    }
  }

  // ── The counter covers whatever is about to be subtracted from it ─────────

  /** Share of live bytes and pending bytes that belongs to one operation. */
  function Floor(files: Files, op: Op): int {
    Pend(op) + if op.Over() then 0 else SizeOf(files, op.path)
  }

  function SumFloor(files: Files, ops: seq<Op>): int {
    if ops == [] then 0 else SumFloor(files, ops[..|ops| - 1]) + Floor(files, ops[|ops| - 1])
  }

  predicate PathsApart(ops: seq<Op>) {
    forall i, j :: 0 <= i < j < |ops| && !ops[i].Over() && !ops[j].Over() ==> ops[i].path != ops[j].path
  }

  lemma {:induction false} SumFloorWithout(files: Files, ops: seq<Op>, p: Path)
    requires forall i :: 0 <= i < |ops| && !ops[i].Over() ==> ops[i].path != p
    ensures SumFloor(files - {p}, ops) == SumFloor(files, ops)
  {
    if ops != [] {
      SumFloorWithout(files, ops[..|ops| - 1], p);
    }
  }

  lemma {:induction false} LiveCoversFloors(files: Files, ops: seq<Op>)
    requires PathsApart(ops)
    ensures Live(files) + SumPend(ops) >= SumFloor(files, ops)
  {
    if ops != [] {
      var init, last := ops[..|ops| - 1], ops[|ops| - 1];
      if last.Over() {
        LiveCoversFloors(files, init);
      } else {
        LiveWithout(files, last.path);
        LiveCoversFloors(files - {last.path}, init);
        SumFloorWithout(files, init, last.path);
      }
    }
  }

  lemma {:induction false} SumFloorCovers(files: Files, ops: seq<Op>, i: nat)
    requires forall k :: 0 <= k < |ops| ==> OpOk(files, ops[k], false, false)
    ensures SumFloor(files, ops) >= 0
    ensures i < |ops| ==> SumFloor(files, ops) >= Floor(files, ops[i])
  {
    if ops != [] {
      var last := ops[|ops| - 1];
      assert OpOk(files, last, false, false) && Floor(files, last) >= 0;
      SumFloorCovers(files, ops[..|ops| - 1], i);
    }
  }

  /** No subtraction saturates: whatever an exchange loop is about to take off
      the counter is contained in it, whoever else is in flight. */
  lemma NoSaturation(s: State, i: nat)
    requires Inv(s, false, false) && Drift(s) >= 0
    requires i < |s.ops| && s.ops[i].InLoop()
    ensures s.ops[i].Sub() <= Counter(s)
  {
    forall j, k | 0 <= j < k < |s.ops| && !s.ops[j].Over() && !s.ops[k].Over()
      ensures s.ops[j].path != s.ops[k].path
    {
      assert Apart(s.ops[j], s.ops[k]);
    }
    LiveCoversFloors(s.files, s.ops);
    SumFloorCovers(s.files, s.ops, i);
    assert OpOk(s.files, s.ops[i], false, false);
  }

  /** Below the largest limit a total can only fail to fit in a rollback that gives
      back more than it takes. */
  lemma FitsUnlessRegrowing(s: State, step: Step)
    requires Inv(s, false, false) && Drift(s) >= 0 && Enabled(s, step)
    requires s.limit < U64_MAX && Counter(s) <= U64_MAX
    requires step.Act? && Lands(s, s.ops[step.i], step.action)
    ensures Fits(s, step) || (s.ops[step.i].phase == Undoing && s.ops[step.i].prior > s.ops[step.i].counted)
  {
    NoSaturation(s, step.i);
    hide Inv, Drift;
  }

  /** And the counter stays a 64-bit number. */
  lemma StaysWordSized(s: State, step: Step)
    requires Enabled(s, step) && Counter(s) <= U64_MAX && s.persisted <= U64_MAX
    requires s.sync.Holding? ==> s.sync.value <= U64_MAX
    ensures var t := Next(s, step);
            Counter(t) <= U64_MAX && t.persisted <= U64_MAX && (t.sync.Holding? ==> t.sync.value <= U64_MAX)
  {
  }

  // ── Never too low, and exact when nothing goes wrong ──────────────────────

  /** The new total of an exchange fits the 64-bit counter. */
  predicate Fits(s: State, step: Step)
    requires Enabled(s, step)
  {
    step.Act? ==>
      var op := s.ops[step.i];
      Lands(s, op, step.action) ==> op.seen.value - op.Sub() + op.Add() <= U64_MAX
  }

  /** Size of the object at the target that the operation does not know of. */
  function Uncaptured(s: State, op: Op): int {
    if op.removed then 0 else SizeOf(s.files, op.path) - op.prior
  }

  /** The step renames into place more bytes than were counted, beyond what the
      replaced object was larger than captured. */
  predicate Undercounts(s: State, step: Step)
    requires Enabled(s, step)
  {
    && step.Act? && (step.action.RenameTry? || step.action.RenameRetry?) && !step.action.answer.Failed?
    && var op := s.ops[step.i];
       !(op.placed && !op.removed) && op.staged > op.counted + Uncaptured(s, op)
  }

  /** The step takes back what was counted for an object that is in place, because
      the rename that put it there was reported as failed. */
  predicate UndoesPlaced(s: State, step: Step)
    requires Enabled(s, step)
  {
    step.Act? &&
    var op := s.ops[step.i];
    Lands(s, op, step.action) && op.phase == Undoing && op.placed && !op.removed && op.counted > op.prior
  }

  predicate Lowers(s: State, step: Step)
    requires Enabled(s, step)
  {
    Undercounts(s, step) || UndoesPlaced(s, step)
  }

  /** Of all steps but resets and crashes, exactly two kinds lower the counter
      against the truth: renames of copies of non-empty sources whose size was taken
      to be zero, and rollbacks of growing renames that took effect unheard. */
  lemma LeakNegativeIff(s: State, step: Step)
    requires Inv(s, false, false) && Drift(s) >= 0 && Enabled(s, step)
    requires !step.ResetStore? && !step.Crash? && Fits(s, step)
    ensures Leak(s, step) < 0 <==> Lowers(s, step)
    ensures Undercounts(s, step) ==>
              var op := s.ops[step.i]; op.kind.Copy? && op.counted == 0 && op.staged > Uncaptured(s, op) >= 0
    ensures UndoesPlaced(s, step) ==> Leak(s, step) == s.ops[step.i].prior - s.ops[step.i].counted
  {
    if step.Act? {
      assert OpOk(s.files, s.ops[step.i], false, false);
      if step.action.Exchange? {
        LeakOfExchange(s, step);
      } else {
        hide Inv, Drift;
        LeakOfOther(s, step);
      }
    }
  }

  lemma LeakOfExchange(s: State, step: Step)
    requires Inv(s, false, false) && Drift(s) >= 0 && Enabled(s, step)
    requires step.Act? && step.action.Exchange? && Fits(s, step)
    ensures Leak(s, step) < 0 <==> UndoesPlaced(s, step)
    ensures UndoesPlaced(s, step) ==> Leak(s, step) == s.ops[step.i].prior - s.ops[step.i].counted
  {
    var op := s.ops[step.i];
    if Lands(s, op, step.action) {
      NoSaturation(s, step.i);
    }
    hide Inv, Drift, OpOk;
  }

  lemma LeakOfOther(s: State, step: Step)
    requires Enabled(s, step) && step.Act? && !step.action.Exchange? && OpOk(s.files, s.ops[step.i], false, false)
    ensures Leak(s, step) < 0 <==> Undercounts(s, step)
    ensures Undercounts(s, step) ==>
              var op := s.ops[step.i]; op.kind.Copy? && op.counted == 0 && op.staged > Uncaptured(s, op) >= 0
  {
  }

  /** A step of the first kind comes only after the stat of a copy source failed. */
  lemma {:induction false} UndercountFollowsUnsizedSource(s: State, run: seq<Step>, step: Step)
    requires Inv(s, true, false) && ValidRun(s, run) && forall k :: 0 <= k < |run| ==> SourceSized(run[k])
    requires Enabled(Final(s, run), step)
    ensures !Undercounts(Final(s, run), step)
    decreases |run|
  {
    if run != [] {
      InvStep(s, run[0], true, false);
      UndercountFollowsUnsizedSource(Next(s, run[0]), run[1..], step);
    } else if step.Act? {
      assert OpOk(s.files, s.ops[step.i], true, false);
    }
  }

  /** The step is not a rename that takes effect but is reported as failed. */
  predicate Heard(step: Step) {
    step.Act? && (step.action.RenameTry? || step.action.RenameRetry?) ==> !step.action.answer.Unheard?
  }

  predicate NonePlaced(s: State) { forall i :: 0 <= i < |s.ops| ==> !s.ops[i].placed }

  /** A step of the second kind comes only after such an answer was lost. */
  lemma {:induction false} RollbackFollowsUnheardRename(s: State, run: seq<Step>, step: Step)
    requires NonePlaced(s) && ValidRun(s, run) && forall k :: 0 <= k < |run| ==> Heard(run[k])
    requires Enabled(Final(s, run), step)
    ensures !UndoesPlaced(Final(s, run), step)
    decreases |run|
  {
    if run != [] {
      RollbackFollowsUnheardRename(Next(s, run[0]), run[1..], step);
    }
  }

  /** Steps under which the counter cannot fall below the truth. */
  predicate Safe(s: State, step: Step)
    requires Enabled(s, step)
  {
    !step.ResetStore? && !step.Crash? && SourceSized(step) && !UndoesPlaced(s, step) && Fits(s, step)
  }

  /** Steps that keep the counter exact: nothing fails to be sized, no object is
      renamed over another, no removed object goes uncredited, and no rollback
      follows a rename that took effect or a fallback that removed the target. */
  predicate Clean(s: State, step: Step)
    requires Enabled(s, step)
  {
    && Safe(s, step) && TargetSized(step)
    && (step.UserRename? ==> step.to !in s.files)
    && (step.Act? ==>
          var op := s.ops[step.i];
          && (step.action.Forget? ==> op.phase == Queued)
          && (step.action.Exchange? ==> !(op.phase == Undoing && (op.removed || op.placed))))
  }

  lemma LeakNeverNegative(s: State, step: Step)
    requires Inv(s, true, false) && Drift(s) >= 0 && Enabled(s, step) && Safe(s, step)
    ensures Leak(s, step) >= 0
  {
    if step.Act? {
      var op := s.ops[step.i];
      assert OpOk(s.files, op, true, false);
      if step.action.Exchange? && Lands(s, op, step.action) {
        Weaken(s, true, false);
        NoSaturation(s, step.i);
      }
    }
  }

  lemma CleanStepsDoNotLeak(s: State, step: Step)
    requires Inv(s, true, true) && Drift(s) >= 0 && Enabled(s, step) && Clean(s, step)
    ensures Leak(s, step) == 0
  {
    if step.Act? {
      var op := s.ops[step.i];
      assert OpOk(s.files, op, true, true);
      if step.action.Exchange? && Lands(s, op, step.action) {
        Weaken(s, true, true);
        NoSaturation(s, step.i);
      }
    }
  }

  ghost predicate SafeRun(s: State, run: seq<Step>)
    requires ValidRun(s, run)
    decreases |run|
  {
    run == [] || (Safe(s, run[0]) && SafeRun(Next(s, run[0]), run[1..]))
  }

  ghost predicate CleanRun(s: State, run: seq<Step>)
    requires ValidRun(s, run)
    decreases |run|
  {
    run == [] || (Clean(s, run[0]) && CleanRun(Next(s, run[0]), run[1..]))
  }

  ghost function TotalLeak(s: State, run: seq<Step>): int
    requires ValidRun(s, run)
    decreases |run|
  {
    if run == [] then 0 else Leak(s, run[0]) + TotalLeak(Next(s, run[0]), run[1..])
  }

  /** Over any run at all, crashes and resets included, the drift is the sum of
      the leaks of its steps. */
  lemma {:induction false} DriftOfRun(s: State, run: seq<Step>)
    requires Inv(s, false, false) && ValidRun(s, run)
    ensures Inv(Final(s, run), false, false)
    ensures Drift(Final(s, run)) == Drift(s) + TotalLeak(s, run)
    decreases |run|
  {
    if run != [] {
      InvStep(s, run[0], false, false);
      DriftStep(s, run[0]);
      DriftOfRun(Next(s, run[0]), run[1..]);
    }
  }

  /** However operations interleave and whatever else fails: once the counter covers
      the live objects and the pending changes, it always does. */
  lemma {:induction false} NeverTooLow(s: State, run: seq<Step>)
    requires Inv(s, true, false) && Drift(s) >= 0 && ValidRun(s, run) && SafeRun(s, run)
    ensures var t := Final(s, run);
            && Inv(t, true, false)
            && Counter(t) >= Live(t.files) + SumPend(t.ops)
    decreases |run|
  {
    if run != [] {
      Weaken(s, true, false);
      InvStep(s, run[0], true, false);
      DriftStep(s, run[0]);
      LeakNeverNegative(s, run[0]);
      NeverTooLow(Next(s, run[0]), run[1..]);
    }
  }

  ghost predicate NeverLowers(s: State, run: seq<Step>)
    requires ValidRun(s, run)
    decreases |run|
  {
    run == [] ||
    (!run[0].ResetStore? && !run[0].Crash? && Fits(s, run[0]) && !Lowers(s, run[0])
     && NeverLowers(Next(s, run[0]), run[1..]))
  }

  /** The same with nothing assumed of any answer: only a step of the two named
      kinds can take the counter below the truth. */
  lemma {:induction false} NeverTooLowUnlessLowered(s: State, run: seq<Step>)
    requires Inv(s, false, false) && Drift(s) >= 0 && ValidRun(s, run) && NeverLowers(s, run)
    ensures Inv(Final(s, run), false, false) && Drift(Final(s, run)) >= 0
    decreases |run|
  {
    if run != [] {
      InvStep(s, run[0], false, false);
      DriftStep(s, run[0]);
      LeakNegativeIff(s, run[0]);
      NeverTooLowUnlessLowered(Next(s, run[0]), run[1..]);
    }
  }

  /** Conservation: with no failure of the named kinds the counter equals the
      live bytes plus the pending changes in every reachable state. */
  lemma {:induction false} Conservation(s: State, run: seq<Step>)
    requires Inv(s, true, true) && Drift(s) == 0 && ValidRun(s, run) && CleanRun(s, run)
    ensures var t := Final(s, run);
            && Inv(t, true, true)
            && Counter(t) == Live(t.files) + SumPend(t.ops)
    decreases |run|
  {
    if run != [] {
      Weaken(s, true, true);
      InvStep(s, run[0], true, true);
      DriftStep(s, run[0]);
      CleanStepsDoNotLeak(s, run[0]);
      Conservation(Next(s, run[0]), run[1..]);
    }
  }

  lemma {:induction false} NothingPending(ops: seq<Op>)
    requires forall i :: 0 <= i < |ops| ==> ops[i].Over()
    ensures SumPend(ops) == 0
  {
    if ops != [] {
      NothingPending(ops[..|ops| - 1]);
    }
  }

  /** From a fresh start over accurately recorded storage, once every operation
      is over the counter is the total size of the objects that exist. */
  lemma QuiescentCounterIsLiveSize(limit: nat, files: Files, run: seq<Step>)
    requires var s := Init(limit, files, Live(files)); ValidRun(s, run) && CleanRun(s, run)
    requires var t := Final(Init(limit, files, Live(files)), run);
             forall i :: 0 <= i < |t.ops| ==> t.ops[i].Over()
    ensures var t := Final(Init(limit, files, Live(files)), run); Counter(t) == Live(t.files)
  {
    var s := Init(limit, files, Live(files));
    Conservation(s, run);
    NothingPending(Final(s, run).ops);
  }

  lemma Prepend(s: State, step: Step, next: State, rest: seq<Step>, end: State)
    requires Enabled(s, step) && Next(s, step) == next
    requires ValidRun(next, rest) && Final(next, rest) == end
    ensures ValidRun(s, [step] + rest) && Final(s, [step] + rest) == end
  {
    assert ([step] + rest)[1..] == rest;
  }

  /** A copier of "a" onto "b" that was told its source is empty. */
  function UnsizedCopier(n: nat, phase: Phase, seen: Option<nat>): Op {
    Op(Copy("a"), "b", phase, if phase == Staging then 0 else n, 0, 0, false, false, seen)
  }

  function CopyState(limit: nat, n: nat, op: Op, dirty: bool, history: seq<nat>): State {
    State(limit, Full(n, dirty), map["a" := n], [op], {}, 0, Idle, n, history, 0, n, 0)
  }

  function CopyEnd(limit: nat, n: nat): State {
    CopyState(limit, n, UnsizedCopier(n, Finished, None), true, [n, n, n]).(files := map["a" := n, "b" := n])
  }

  lemma EmptyRun(s: State)
    ensures ValidRun(s, []) && Final(s, []) == s
  {
  }

  lemma UnsizedCopyLast(limit: nat, n: nat) returns (run: seq<Step>)
    requires n <= limit <= U64_MAX
    ensures var s := CopyState(limit, n, UnsizedCopier(n, CommitMark, None), false, [n, n, n]);
            ValidRun(s, run) && Final(s, run) == CopyEnd(limit, n)
  {
    hide ValidRun, Final;
    EmptyRun(CopyEnd(limit, n));
    var s8 := CopyState(limit, n, UnsizedCopier(n, CommitMark, None), false, [n, n, n]);
    var s9 := CopyState(limit, n, UnsizedCopier(n, Renaming, None), true, [n, n, n]);
    var end := CopyEnd(limit, n);
    run := [];
    Prepend(s9, Act(0, RenameTry(Done)), end, run, end); run := [Act(0, RenameTry(Done))] + run;
    Prepend(s8, Act(0, MarkDirty), s9, run, end); run := [Act(0, MarkDirty)] + run;
  }

  lemma UnsizedCopyTail(limit: nat, n: nat) returns (run: seq<Step>)
    requires n <= limit <= U64_MAX
    ensures var s := CopyState(limit, n, UnsizedCopier(n, Committing, None), false, [n, n]);
            ValidRun(s, run) && Final(s, run) == CopyEnd(limit, n)
  {
    hide ValidRun, Final;
    var s6 := CopyState(limit, n, UnsizedCopier(n, Committing, None), false, [n, n]);
    var s7 := CopyState(limit, n, UnsizedCopier(n, Committing, Some(n)), false, [n, n]);
    var s8 := CopyState(limit, n, UnsizedCopier(n, CommitMark, None), false, [n, n, n]);
    var end := CopyEnd(limit, n);
    run := UnsizedCopyLast(limit, n);
    Prepend(s7, Act(0, Exchange(false)), s8, run, end); run := [Act(0, Exchange(false))] + run;
    Prepend(s6, Act(0, LoadCounter), s7, run, end); run := [Act(0, LoadCounter)] + run;
  }

  lemma UnsizedCopyMiddle(limit: nat, n: nat) returns (run: seq<Step>)
    requires n <= limit <= U64_MAX
    ensures var s := CopyState(limit, n, UnsizedCopier(n, Staging, None), false, [n, n]);
            ValidRun(s, run) && Final(s, run) == CopyEnd(limit, n)
  {
    hide ValidRun, Final;
    var s3 := CopyState(limit, n, UnsizedCopier(n, Staging, None), false, [n, n]);
    var s4 := CopyState(limit, n, UnsizedCopier(n, Closed, None), false, [n, n]);
    var s5 := CopyState(limit, n, UnsizedCopier(n, Counted, None), false, [n, n]);
    var s6 := CopyState(limit, n, UnsizedCopier(n, Committing, None), false, [n, n]);
    var end := CopyEnd(limit, n);
    run := UnsizedCopyTail(limit, n);
    Prepend(s5, Act(0, SizeTarget(true)), s6, run, end); run := [Act(0, SizeTarget(true))] + run;
    Prepend(s4, Act(0, SizeSource(false)), s5, run, end); run := [Act(0, SizeSource(false))] + run;
    Prepend(s3, Act(0, CloseStage), s4, run, end); run := [Act(0, CloseStage)] + run;
  }

  lemma UnsizedCopyDrift(limit: nat, n: nat)
    requires n <= limit <= U64_MAX
    ensures var s := Init(limit, map["a" := n], n); Inv(s, true, true) && Drift(s) == 0
    ensures Drift(CopyEnd(limit, n)) == 0 - n
  {
    var files := map["a" := n];
    LiveSet(map[], "a", n);
    LiveSet(files, "b", n);
    assert files == map[]["a" := n] && CopyEnd(limit, n).files == files["b" := n];
    assert CopyEnd(limit, n).ops[..0] == [];
  }

  function LoadedState(limit: nat, n: nat): State {
    Init(limit, map["a" := n], n).(cell := Full(n, false), history := [n, n])
  }

  lemma UnsizedCopyBegins(limit: nat, n: nat) returns (run: seq<Step>)
    requires n <= limit <= U64_MAX
    ensures ValidRun(LoadedState(limit, n), run) && Final(LoadedState(limit, n), run) == CopyEnd(limit, n)
  {
    hide ValidRun, Final;
    var s3 := CopyState(limit, n, UnsizedCopier(n, Staging, None), false, [n, n]);
    run := UnsizedCopyMiddle(limit, n);
    Prepend(LoadedState(limit, n), BeginCopy("a", "b"), s3, run, CopyEnd(limit, n));
    run := [BeginCopy("a", "b")] + run;
  }

  lemma UnsizedCopyRun(limit: nat, n: nat) returns (run: seq<Step>)
    requires n <= limit <= U64_MAX
    ensures var s := Init(limit, map["a" := n], n); ValidRun(s, run) && Final(s, run) == CopyEnd(limit, n)
  {
    hide ValidRun, Final;
    var s0 := Init(limit, map["a" := n], n);
    var s1 := s0.(cell := Loading(n));
    var end := CopyEnd(limit, n);
    run := UnsizedCopyBegins(limit, n);
    Prepend(s1, FinishLoad, LoadedState(limit, n), run, end); run := [FinishLoad] + run;
    Prepend(s0, BeginLoad, s1, run, end); run := [BeginLoad] + run;
  }

  /** A copy whose source could not be sized is charged nothing: `n` bytes
      appear on disk and none in the counter. */
  lemma UnsizedCopyUndercounts(limit: nat, n: nat) returns (run: seq<Step>)
    requires n <= limit <= U64_MAX
    ensures var s := Init(limit, map["a" := n], n);
            && Inv(s, true, true) && ValidRun(s, run)
            && Drift(s) == 0 && Drift(Final(s, run)) == 0 - n
  {
    UnsizedCopyDrift(limit, n);
    run := UnsizedCopyRun(limit, n);
  }

  // ── A rename whose answer is lost ─────────────────────────────────────────

  /** A writer of a new object "b" of n bytes. */
  function Writer(n: nat, phase: Phase, placed: bool, seen: Option<nat>): Op {
    Op(Write, "b", phase, n, n, 0, placed, false, seen)
  }

  function WriteState(limit: nat, op: Op, bytes: nat, dirty: bool, files: Files, history: seq<nat>): State {
    State(limit, Full(bytes, dirty), files, [op], {}, 0, Idle, 0, history, 0, 0, 0)
  }

  /** The states of the run, and the steps between them. */
  function LostState(limit: nat, n: nat, k: nat): State {
    var start := Init(limit, map[], 0);
    var f, h := map["b" := n], [0, 0, n];
    if k == 0 then start
    else if k == 1 then start.(cell := Loading(0))
    else if k == 2 then start.(cell := Full(0, false), history := [0, 0])
    else if k == 3 then WriteState(limit, FreshOp(Write, "b", Staging, 0), 0, false, map[], [0, 0])
    else if k == 4 then WriteState(limit, Writer(n, Staging, false, None), 0, false, map[], [0, 0])
    else if k == 5 then WriteState(limit, Writer(n, Closed, false, None), 0, false, map[], [0, 0])
    else if k == 6 then WriteState(limit, Writer(n, Committing, false, None), 0, false, map[], [0, 0])
    else if k == 7 then WriteState(limit, Writer(n, Committing, false, Some(0)), 0, false, map[], [0, 0])
    else if k == 8 then WriteState(limit, Writer(n, CommitMark, false, None), n, false, map[], h)
    else if k == 9 then WriteState(limit, Writer(n, Renaming, false, None), n, true, map[], h)
    else if k == 10 then WriteState(limit, Writer(n, Falling, true, None), n, true, f, h)
    else if k == 11 then WriteState(limit, Writer(n, Retrying, true, None), n, true, f, h)
    else if k == 12 then WriteState(limit, Writer(n, Undoing, true, None), n, true, f, h)
    else if k == 13 then WriteState(limit, Writer(n, Undoing, true, Some(n)), n, true, f, h)
    else if k == 14 then WriteState(limit, Writer(n, UndoMark, true, None), 0, true, f, h + [0])
    else WriteState(limit, Writer(n, RolledBack, true, None), 0, true, f, h + [0])
  }

  function LostSteps(n: nat): (run: seq<Step>)
    ensures |run| == 15
  {
    [BeginLoad, FinishLoad, BeginWrite("b"), Act(0, Chunk(n)), Act(0, CloseStage), Act(0, SizeTarget(true)),
     Act(0, LoadCounter), Act(0, Exchange(false)), Act(0, MarkDirty), Act(0, RenameTry(Unheard)),
     Act(0, FallRemove(false)), Act(0, RenameRetry(Failed)), Act(0, LoadCounter), Act(0, Exchange(false)),
     Act(0, MarkDirty)]
  }

  predicate Leads(s: State, step: Step, t: State) { Enabled(s, step) && Next(s, step) == t }

  lemma LostStaging(limit: nat, n: nat, k: nat)
    requires n <= limit <= U64_MAX && k < 5
    ensures Leads(LostState(limit, n, k), LostSteps(n)[k], LostState(limit, n, k + 1))
  {
  }

  lemma LostCommit(limit: nat, n: nat, k: nat)
    requires n <= limit <= U64_MAX && 5 <= k < 7
    ensures Leads(LostState(limit, n, k), LostSteps(n)[k], LostState(limit, n, k + 1))
  {
  }

  lemma LostMark(limit: nat, n: nat, k: nat)
    requires n <= limit <= U64_MAX && 7 <= k < 9
    ensures Leads(LostState(limit, n, k), LostSteps(n)[k], LostState(limit, n, k + 1))
  {
  }

  lemma LostRename(limit: nat, n: nat, k: nat)
    requires n <= limit <= U64_MAX && 9 <= k < 11
    ensures Leads(LostState(limit, n, k), LostSteps(n)[k], LostState(limit, n, k + 1))
  {
  }

  lemma LostRetry(limit: nat, n: nat, k: nat)
    requires n <= limit <= U64_MAX && 11 <= k < 13
    ensures Leads(LostState(limit, n, k), LostSteps(n)[k], LostState(limit, n, k + 1))
  {
  }

  lemma LostRollback(limit: nat, n: nat, k: nat)
    requires n <= limit <= U64_MAX && 13 <= k < 15
    ensures Leads(LostState(limit, n, k), LostSteps(n)[k], LostState(limit, n, k + 1))
  {
  }

  lemma LostRunFrom(limit: nat, n: nat, k: nat)
    requires n <= limit <= U64_MAX && k <= 15
    ensures ValidRun(LostState(limit, n, k), LostSteps(n)[k..])
    ensures Final(LostState(limit, n, k), LostSteps(n)[k..]) == LostState(limit, n, 15)
    decreases 15 - k
  {
    hide LostState, LostSteps, ValidRun, Final, Next, Enabled;
    if k == 15 {
      EmptyRun(LostState(limit, n, 15));
      assert LostSteps(n)[15..] == [];
    } else {
      if k < 5 { LostStaging(limit, n, k); }
      if 5 <= k < 7 { LostCommit(limit, n, k); }
      if 7 <= k < 9 { LostMark(limit, n, k); }
      if 9 <= k < 11 { LostRename(limit, n, k); }
      if 11 <= k < 13 { LostRetry(limit, n, k); }
      if k >= 13 { LostRollback(limit, n, k); }
      LostRunFrom(limit, n, k + 1);
      Prepend(LostState(limit, n, k), LostSteps(n)[k], LostState(limit, n, k + 1), LostSteps(n)[k + 1..],
              LostState(limit, n, 15));
      assert LostSteps(n)[k..] == [LostSteps(n)[k]] + LostSteps(n)[k + 1..];
    }
  }

  lemma LostDrift(limit: nat, n: nat)
    requires limit <= U64_MAX
    ensures Inv(Init(limit, map[], 0), true, true) && Drift(Init(limit, map[], 0)) == 0
    ensures Drift(LostState(limit, n, 15)) == 0 - n
  {
    LiveSet(map[], "b", n);
    assert LostState(limit, n, 15).files == map[]["b" := n];
    assert LostState(limit, n, 15).ops[..0] == [];
  }

  /** A plain write, every stat true, nothing reset or crashed: its rename takes
      effect but is reported as failed, the fallback removes nothing, and the
      rollback leaves an object of n bytes that the counter does not know. */
  lemma LostRenameUndercounts(limit: nat, n: nat) returns (run: seq<Step>)
    requires n <= limit <= U64_MAX
    ensures var s := Init(limit, map[], 0);
            && Inv(s, true, true) && ValidRun(s, run)
            && Drift(s) == 0 && Drift(Final(s, run)) == 0 - n
  {
    LostDrift(limit, n);
    LostRunFrom(limit, n, 0);
    assert LostState(limit, n, 0) == Init(limit, map[], 0);
    run := LostSteps(n)[0..];
  }
}
