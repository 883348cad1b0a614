/** One quota id as a step system.

    Any number of writes, copies and deletes are in flight at once and their
    atomic actions interleave freely with each other, with the background sync
    task, with resets and with crashes. Every constructor of `Step` is one
    atomic action of the program or one choice of the storage backend. */
module QuotaMachine {
  import opened Prelude
  import opened QuotaCounters

  type Path = string
  type Files = map<Path, nat>

  datatype Kind =
    | Write
    | Copy(from: Path)
    | Delete(batch: nat)

  datatype Phase =
      // writers and copiers
    | Staging      // bytes stream into the temp path
    | Closed       // the temp object is complete
    | Counted      // a copier has read the size of its source
    | Committing   // the target's size is known; inside the exchange loop
    | CommitMark   // exchange landed, dirty flag not yet stored
    | Renaming
    | Falling      // the first rename was reported as failed
    | Retrying     // the target removal was attempted
    | Undoing      // both renames were; inside the rollback's exchange loop
    | UndoMark
    | Finished | Rejected | Aborted | RolledBack
      // queued deletes
    | Queued       // size captured, delete forwarded
    | Applied      // the backend has removed the object
    | Crediting    // inside the exchange loop that releases the size
    | CreditMark
    | Credited | Lost

  /** `staged`: bytes in the temp object. `counted`: the size the quota is asked
      for. `prior`: the captured size of `path`. `seen`: last counter value loaded
      by the exchange loop. `placed`: a rename reported as failed has put the object
      at `path` all the same; `removed`: the fallback deleted what was there. */
  datatype Op = Op(kind: Kind, path: Path, phase: Phase, staged: nat, counted: nat,
                   prior: nat, placed: bool, removed: bool, seen: Option<nat>)
  {
    predicate Over() {
      phase in {Finished, Rejected, Aborted, RolledBack, Credited, Lost}
    }

    /** The path the operation changes, and the one it reads, while in flight. */
    predicate Targets(p: Path) { !Over() && p == path }

    predicate Reads(p: Path) { !Over() && kind.Copy? && p == kind.from }

    predicate InLoop() { phase in {Committing, Undoing, Crediting} }

    predicate Marking() { phase in {CommitMark, UndoMark, CreditMark} }

    /** Arguments of the exchange loop the operation is in. */
    function Sub(): nat { if phase == Undoing then counted else prior }

    function Add(): nat {
      if phase == Committing then counted else if phase == Undoing then prior else 0
    }

    function Landed(): Phase
      requires InLoop()
    {
      if phase == Committing then CommitMark else if phase == Undoing then UndoMark else CreditMark
    }

    function AfterMark(): Phase
      requires Marking()
    {
      if phase == CommitMark then Renaming else if phase == UndoMark then RolledBack else Credited
    }
  }

  /** The lazily filled bucket of the id. */
  datatype Cell = Empty | Loading(value: nat) | Full(bytes: nat, dirty: bool)

  /** The background task: it has swapped the flag; it has read a value (and the
      position of that value in the history); its store failed and the flag is
      not yet set again. */
  datatype Sync = Idle | Swapped | Holding(value: nat, at: int) | Remark

  /** `history` records every value the counter was given, across restarts, and
      `durableAt` the position of the persisted one; `loaded` and `undone` are
      the bucket's first value and the shrink undone by rollbacks since then. */
  datatype State = State(limit: nat, cell: Cell, files: Files, ops: seq<Op>, closed: set<nat>,
                         resets: nat, sync: Sync, persisted: nat,
                         history: seq<nat>, durableAt: int, loaded: nat, undone: nat)

  /** The backend's answer to a rename; an unheard one took effect but is reported
      as failed, with or without the temp object still there. */
  datatype Answer = Done | Failed | Unheard

  /** One atomic action of one operation. `answer`, `worked` and `sized` are the
      backend's answers; `spurious` is a weak exchange failing for no reason. */
  datatype Action =
    | Chunk(n: nat)
    | CloseStage
    | AbortStage
    | SizeSource(sized: bool)
    | SizeTarget(sized: bool)
    | Unloaded               // the bucket could not be loaded
    | LoadCounter
    | Exchange(spurious: bool)
    | MarkDirty
    | RenameTry(answer: Answer)
    | FallRemove(worked: bool)
    | RenameRetry(answer: Answer)
    | ApplyDelete
    | StartCredit
    | Forget                 // a delete batch that ends without crediting this path

  datatype Step =
    | BeginWrite(path: Path)
    | BeginCopy(from: Path, to: Path)
    | BeginDelete(target: Path, batch: nat, sized: bool)
    | Act(i: nat, action: Action)
    | CloseBatch(batch: nat)
    | UserRename(from: Path, to: Path)
    | BeginLoad | FinishLoad | FailLoad
    | ResetStore | ResetMark
    | SyncSwap | SyncRead | SyncStore | SyncFail(wrote: bool) | SyncRemark
    | Crash

  function SizeOf(files: Files, p: Path): nat { if p in files then files[p] else 0 }

  /** What a stat reports: the true size, or 0 when it fails. */
  function StatOf(files: Files, p: Path, sized: bool): nat { if sized then SizeOf(files, p) else 0 }

  /** No operation in flight changes `p`. */
  predicate Stable(s: State, p: Path) {
    forall k :: 0 <= k < |s.ops| ==> !s.ops[k].Targets(p)
  }

  /** No operation in flight changes or reads `p`. */
  predicate Free(s: State, p: Path) {
    Stable(s, p) && forall k :: 0 <= k < |s.ops| ==> !s.ops[k].Reads(p)
  }

  // ── Actions of one operation ──────────────────────────────────────────────

  /** The total the exchange loop of `op` would store over the value it saw. */
  function Wanted(op: Op): nat
    requires op.seen.Some?
  {
    DeltaTotal(op.seen.value, op.Sub(), op.Add())
  }

  predicate Refused(limit: nat, op: Op)
    requires op.seen.Some?
  {
    Wanted(op) > LimitOf(limit, op)
  }

  /** True when the action is an exchange that takes effect on the counter. */
  predicate Lands(s: State, op: Op, a: Action) {
    && a.Exchange? && op.seen.Some? && op.InLoop() && s.cell.Full?
    && !Refused(s.limit, op) && !a.spurious && s.cell.bytes == op.seen.value
  }

  /** The limit the exchange loop of an operation is given. */
  function LimitOf(limit: nat, op: Op): nat { if op.phase == Committing then limit else U64_MAX }

  /** An exchange step is one turn of the counter's loop. */
  lemma ExchangeIsOneTurn(s: State, op: Op, spurious: bool)
    requires CanAct(s, op, Exchange(spurious))
    ensures var a := Exchange(spurious);
            var turn := ExchangeTurn(op.seen.value, s.cell.bytes, op.Sub(), op.Add(), LimitOf(s.limit, op), spurious);
            && ActOp(s, op, a) == (if turn.Refuse? then op.(phase := Rejected, seen := None)
                                   else if turn.Land? then op.(phase := op.Landed(), seen := None)
                                   else op.(seen := Some(turn.value)))
            && ActCell(s, op, a) == if turn.Land? then s.cell.(bytes := turn.total) else s.cell
  {
  }

  predicate CanAct(s: State, op: Op, a: Action) {
    match a
    case Chunk(n) => op.phase == Staging && op.kind.Write? && op.staged + n <= U64_MAX
    case CloseStage => op.phase == Staging
    case AbortStage => op.phase == Staging
    case SizeSource(_) => op.phase == Closed && op.kind.Copy?
    case SizeTarget(_) => op.phase == (if op.kind.Copy? then Counted else Closed)
    case Unloaded => op.phase == Committing && op.seen.None? && !s.cell.Full?
    case LoadCounter => op.InLoop() && op.seen.None? && s.cell.Full?
    case Exchange(_) => op.InLoop() && op.seen.Some? && s.cell.Full?
    case MarkDirty => op.Marking() && s.cell.Full?
    case RenameTry(_) => op.phase == Renaming
    case FallRemove(_) => op.phase == Falling
    case RenameRetry(_) => op.phase == Retrying
    case ApplyDelete => op.phase == Queued
    case StartCredit => op.phase == Applied && op.kind.Delete? && op.kind.batch in s.closed
    case Forget => op.phase in {Queued, Applied, Crediting} && op.seen.None?
  }

  function ActOp(s: State, op: Op, a: Action): Op
    requires CanAct(s, op, a)
  {
    match a
    case Chunk(n) => op.(staged := op.staged + n, counted := op.staged + n)
    case CloseStage =>
      op.(phase := Closed, staged := if op.kind.Copy? then SizeOf(s.files, op.kind.from) else op.staged)
    case AbortStage => op.(phase := Aborted)
    case SizeSource(sized) => op.(phase := Counted, counted := StatOf(s.files, op.kind.from, sized))
    case SizeTarget(sized) => op.(phase := Committing, prior := StatOf(s.files, op.path, sized), seen := None)
    case Unloaded => op.(phase := Rejected)
    case LoadCounter => op.(seen := Some(s.cell.bytes))
    case Exchange(_) =>
      if Refused(s.limit, op) then op.(phase := Rejected, seen := None)
      else if Lands(s, op, a) then op.(phase := op.Landed(), seen := None)
      else op.(seen := Some(s.cell.bytes))
    case MarkDirty => op.(phase := op.AfterMark())
    case RenameTry(answer) => op.(phase := if answer.Done? then Finished else Falling, placed := answer.Unheard?)
    case FallRemove(worked) => op.(phase := Retrying, removed := worked)
    case RenameRetry(answer) =>
      op.(phase := if answer.Done? then Finished else Undoing, seen := None,
          placed := op.placed || answer.Unheard?, removed := op.removed && !answer.Unheard?)
    case ApplyDelete => op.(phase := Applied)
    case StartCredit => op.(phase := Crediting, seen := None)
    case Forget => op.(phase := Lost)
  }

  function ActFiles(files: Files, op: Op, a: Action): Files {
    match a
    case RenameTry(answer) => if answer.Failed? then files else files[op.path := op.staged]
    case RenameRetry(answer) => if answer.Failed? then files else files[op.path := op.staged]
    case FallRemove(worked) => if worked then files - {op.path} else files
    case ApplyDelete => files - {op.path}
    case _ => files
  }

  function ActCell(s: State, op: Op, a: Action): Cell {
    if Lands(s, op, a) then s.cell.(bytes := Wanted(op))
    else if a.MarkDirty? && s.cell.Full? then s.cell.(dirty := true)
    else s.cell
  }

  function NextAct(s: State, i: nat, a: Action): State
    requires i < |s.ops| && CanAct(s, s.ops[i], a)
  {
    var op := s.ops[i];
    var landed := Lands(s, op, a);
    s.(ops := s.ops[i := ActOp(s, op, a)],
       files := ActFiles(s.files, op, a),
       cell := ActCell(s, op, a),
       history := if landed then s.history + [Wanted(op)] else s.history,
       undone := if landed && op.phase == Undoing then s.undone + SatSub(op.prior, op.counted) else s.undone)
  }

  // ── The whole system ──────────────────────────────────────────────────────

  function FreshOp(kind: Kind, path: Path, phase: Phase, prior: nat): Op {
    Op(kind, path, phase, 0, 0, prior, false, false, None)
  }

  predicate Enabled(s: State, step: Step) {
    match step
    case BeginWrite(path) => Free(s, path)
    case BeginCopy(from, to) => Stable(s, from) && Free(s, to) && from != to && from in s.files
    case BeginDelete(path, batch, _) => Free(s, path) && batch !in s.closed
    case Act(i, a) => i < |s.ops| && CanAct(s, s.ops[i], a)
    case CloseBatch(batch) =>
      forall k :: 0 <= k < |s.ops| && s.ops[k].kind == Delete(batch) ==> s.ops[k].phase != Queued
    case UserRename(from, to) => Free(s, from) && Free(s, to) && from != to && from in s.files
    case BeginLoad => s.cell.Empty?
    case FinishLoad => s.cell.Loading?
    case FailLoad => s.cell.Loading?
    case ResetStore => !s.cell.Loading?
    case ResetMark => s.resets > 0 && s.cell.Full?
    case SyncSwap => s.sync.Idle? && s.cell.Full?
    case SyncRead => s.sync.Swapped? && s.cell.Full?
    case SyncStore => s.sync.Holding?
    case SyncFail(_) => s.sync.Holding?
    case SyncRemark => s.sync.Remark? && s.cell.Full?
    case Crash => true
  }

  function Next(s: State, step: Step): State
    requires Enabled(s, step)
  {
    match step
    case BeginWrite(path) => s.(ops := s.ops + [FreshOp(Write, path, Staging, 0)])
    case BeginCopy(from, to) => s.(ops := s.ops + [FreshOp(Copy(from), to, Staging, 0)])
    case BeginDelete(path, batch, sized) =>
      s.(ops := s.ops + [FreshOp(Delete(batch), path, Queued, StatOf(s.files, path, sized))])
    case Act(i, a) => NextAct(s, i, a)
    case CloseBatch(batch) => s.(closed := s.closed + {batch})
    case UserRename(from, to) => s.(files := (s.files - {from})[to := s.files[from]])
    case BeginLoad => s.(cell := Loading(s.persisted))
    case FinishLoad =>
      s.(cell := Full(s.cell.value, false), history := s.history + [s.cell.value],
         loaded := s.cell.value, undone := 0)
    case FailLoad => s.(cell := Empty)
    case ResetStore =>
      if s.cell.Full? then
        s.(cell := s.cell.(bytes := 0), history := s.history + [0], resets := s.resets + 1)
      else
        s.(cell := Full(0, true), history := s.history + [0], loaded := 0, undone := 0)
    case ResetMark => s.(cell := s.cell.(dirty := true), resets := s.resets - 1)
    case SyncSwap => if s.cell.dirty then s.(cell := s.cell.(dirty := false), sync := Swapped) else s
    case SyncRead => s.(sync := Holding(s.cell.bytes, |s.history| - 1))
    case SyncStore => s.(sync := Idle, persisted := s.sync.value, durableAt := s.sync.at)
    case SyncFail(wrote) =>
      if wrote then s.(sync := Remark, persisted := s.sync.value, durableAt := s.sync.at)
      else s.(sync := Remark)
    case SyncRemark => s.(cell := s.cell.(dirty := true), sync := Idle)
    case Crash => s.(cell := Empty, ops := [], closed := {}, resets := 0, sync := Idle, undone := 0)
  }

  /** A server that has just started over the given storage and tracker. */
  function Init(limit: nat, files: Files, persisted: nat): State {
    State(limit, Empty, files, [], {}, 0, Idle, persisted, [persisted], 0, persisted, 0)
  }

  // ── Runs ──────────────────────────────────────────────────────────────────

  ghost predicate ValidRun(s: State, run: seq<Step>)
    decreases |run|
  {
    run == [] || (Enabled(s, run[0]) && ValidRun(Next(s, run[0]), run[1..]))
  }

  ghost function Final(s: State, run: seq<Step>): State
    requires ValidRun(s, run)
    decreases |run|
  {
    if run == [] then s else Final(Next(s, run[0]), run[1..])
  }
}
