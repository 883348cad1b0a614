/** Changing the password of repository points: a new key is added inside every
    affected repository, the configuration is stored, the old key is removed,
    and the server may stop anywhere in between. */
module KeyRotation {
  type Password = string
  type Target = string

  /** A repository is its set of keys; a key opens with one password. */
  datatype Repo = Absent | Present(keys: map<nat, Password>)
  {
    predicate Opens(pw: Password) { Present? && pw in keys.Values }
  }

  /** What goes wrong during one call: the probe, either attempt to open, or the
      final write, which may have landed even when it reports failure. */
  datatype Fault = Fault(probe: bool, openNew: bool, openOld: bool, write: bool, landed: bool)

  // ── One repository ────────────────────────────────────────────────────────

  function AddKey(r: Repo, old_: Password, new_: Password, allowWrite: bool, f: Fault, id: nat): (Repo, bool) {
    if f.probe then (r, false)
    else if r.Absent? then (r, true)
    else if r.Opens(new_) && !f.openNew then (r, true)
    else if !r.Opens(old_) || f.openOld then (r, false)
    else if !allowWrite then (r, false)
    else if f.write then (if f.landed then Present(r.keys[id := new_]) else r, false)
    else (Present(r.keys[id := new_]), true)
  }

  /** `oldKey` and `newKey` are the keys that opened the two handles. */
  function RemoveKey(r: Repo, old_: Password, new_: Password, allowWrite: bool, f: Fault,
                     oldKey: nat, newKey: nat): (Repo, bool) {
    if f.probe then (r, false)
    else if r.Absent? then (r, true)
    else if !r.Opens(new_) || f.openNew then (r, false)
    else if !r.Opens(old_) || f.openOld then (r, true)
    else if oldKey == newKey then (r, true)
    else if !allowWrite then (r, false)
    else if f.write && !f.landed then (r, false)
    else (Present(r.keys - {oldKey}), !f.write)
  }

  /** Adding takes no key away; when it reports success the new password opens
      the repository, unless there is none yet. */
  lemma AddKeyFacts(r: Repo, old_: Password, new_: Password, allowWrite: bool, f: Fault, id: nat)
    requires r.Present? ==> id !in r.keys
    ensures var (t, ok) := AddKey(r, old_, new_, allowWrite, f, id);
            && (r.Absent? <==> t.Absent?)
            && (r.Present? ==> r.keys.Items <= t.keys.Items)
            && (forall pw :: r.Opens(pw) ==> t.Opens(pw))
            && (ok ==> t.Absent? || t.Opens(new_))
            && (f == Fault(false, false, false, false, false) ==>
                  (ok <==> r.Absent? || r.Opens(new_) || (r.Opens(old_) && allowWrite)))
            && (forall pw :: t.Opens(pw) && !r.Opens(pw) ==> pw == new_ && allowWrite && r.Opens(old_))
            && (!allowWrite || f.probe ==> t == r)
  {
    var (t, ok) := AddKey(r, old_, new_, allowWrite, f, id);
    if t != r {
      forall k | k in r.keys
        ensures k in t.keys && t.keys[k] == r.keys[k]
      {
      }
      forall pw | r.Opens(pw)
        ensures t.Opens(pw)
      {
        var k :| k in r.keys && r.keys[k] == pw;
        assert t.keys[k] == pw;
      }
      assert t.keys[id] == new_;
    }
  }

  /** Removing never shuts out the new password, nor any third one; a clean call
      on a repository with one old key leaves the old password useless. */
  lemma RemoveKeyFacts(r: Repo, old_: Password, new_: Password, allowWrite: bool, f: Fault, oldKey: nat, newKey: nat)
    requires old_ != new_
    requires r.Opens(old_) ==> oldKey in r.keys && r.keys[oldKey] == old_
    requires r.Opens(new_) ==> newKey in r.keys && r.keys[newKey] == new_
    ensures var (t, ok) := RemoveKey(r, old_, new_, allowWrite, f, oldKey, newKey);
            && (r.Absent? <==> t.Absent?)
            && (forall pw :: t.Opens(pw) ==> r.Opens(pw))
            && (forall pw :: pw != old_ && r.Opens(pw) ==> t.Opens(pw))
            && (!allowWrite || f.probe || !r.Opens(new_) ==> t == r)
            && (r.Opens(new_) && allowWrite && f == Fault(false, false, false, false, false)
                && (forall k :: k in r.keys && r.keys[k] == old_ ==> k == oldKey)
                ==> ok && !t.Opens(old_))
  {
    var (t, ok) := RemoveKey(r, old_, new_, allowWrite, f, oldKey, newKey);
    if t != r {
      forall pw | pw != old_ && r.Opens(pw)
        ensures t.Opens(pw)
      {
        var k :| k in r.keys && r.keys[k] == pw;
        assert k in t.keys && t.keys[k] == pw;
      }
    }
  }

  /** One repository under its lock. */
  class KeyStore {
    var repo: Repo

    constructor (repo: Repo)
      ensures this.repo == repo
    {
      this.repo := repo;
    }

    method AddRepoKey(old_: Password, new_: Password, allowWrite: bool, f: Fault, id: nat) returns (ok: bool)
      requires repo.Present? ==> id !in repo.keys
      modifies this
      ensures (repo, ok) == AddKey(old(repo), old_, new_, allowWrite, f, id)
      ensures forall pw :: old(repo).Opens(pw) ==> repo.Opens(pw)
    {
      AddKeyFacts(repo, old_, new_, allowWrite, f, id);
      if f.probe { return false; }
      if repo.Absent? { return true; }
      if repo.Opens(new_) && !f.openNew { return true; }
      if !repo.Opens(old_) || f.openOld { return false; }
      if !allowWrite { return false; }
      if !f.write || f.landed {
        repo := Present(repo.keys[id := new_]);
      }
      return !f.write;
    }

    method RemoveOldRepoKey(old_: Password, new_: Password, allowWrite: bool, f: Fault, oldKey: nat, newKey: nat)
      returns (ok: bool)
      requires old_ != new_
      requires repo.Opens(old_) ==> oldKey in repo.keys && repo.keys[oldKey] == old_
      requires repo.Opens(new_) ==> newKey in repo.keys && repo.keys[newKey] == new_
      modifies this
      ensures (repo, ok) == RemoveKey(old(repo), old_, new_, allowWrite, f, oldKey, newKey)
      ensures old(repo).Opens(new_) ==> repo.Opens(new_)
    {
      RemoveKeyFacts(repo, old_, new_, allowWrite, f, oldKey, newKey);
      if f.probe { return false; }
      if repo.Absent? { return true; }
      if !repo.Opens(new_) || f.openNew { return false; }
      if !repo.Opens(old_) || f.openOld { return true; }
      if oldKey == newKey { return true; }
      if !allowWrite { return false; }
      if !f.write || f.landed {
        repo := Present(repo.keys - {oldKey});
      }
      return !f.write;
    }
  }

  // ── SetVfs over the whole configuration ───────────────────────────────────

  /** A repository point of one user, by its stable id. */
  type PointId = string

  datatype Point = Point(target: Target, password: Password, readOnly: bool)

  type Config = map<PointId, Point>

  datatype Phase =
    | Idle
    | Adding(next: Config, changes: seq<PointId>, done: nat, skipped: set<PointId>)
    | Removing(prev: Config, changes: seq<PointId>, done: nat)

  /** A backup job or a mount under construction that may create a missing
      repository, with the target and password it read from the configuration. */
  datatype Creator = Creator(target: Target, password: Password)

  /** `tracked` are the points the promise is about: they opened with the stored
      password once and have kept their id and storage target since. `skipped`
      are the points whose repository phase 1 found absent. */
  datatype State = State(repos: map<Target, Repo>, stored: Config, tracked: set<PointId>,
                         creators: set<Creator>, phase: Phase)

  datatype Step =
    | Begin(next: Config, changes: seq<PointId>)
    | Add(fault: Fault, id: nat)
    | Commit(ok: bool)
    | Remove(fault: Fault, oldKey: nat, newKey: nat)
    | Finish
    | Read(p: PointId)                  // a creator copies a point out of the configuration
    | Create(c: Creator, id: nat)       // and some time later creates the repository
    | Crash

  function RepoAt(repos: map<Target, Repo>, t: Target): Repo { if t in repos then repos[t] else Absent }

  /** No two points share a storage target. */
  predicate Separate(c: Config) {
    forall p, q :: p in c && q in c && p != q ==> c[p].target != c[q].target
  }

  predicate Changed(old_: Config, next: Config, p: PointId) {
    p in old_ && p in next && old_[p].target == next[p].target && old_[p].password != next[p].password
  }

  ghost predicate ChangeList(old_: Config, next: Config, changes: seq<PointId>) {
    && (forall p :: p in changes <==> Changed(old_, next, p))
    && (forall i, j :: 0 <= i < j < |changes| ==> changes[i] != changes[j])
  }

  predicate Fresh(r: Repo, id: nat) { r.Present? ==> id !in r.keys }

  predicate KeyOf(r: Repo, pw: Password, k: nat) { r.Opens(pw) ==> k in r.keys && r.keys[k] == pw }

  /** Points that stay under the promise when the configuration is replaced. */
  function Kept(tracked: set<PointId>, old_: Config, next: Config): set<PointId> {
    set p | p in tracked && p in old_ && p in next && next[p].target == old_[p].target
  }

  ghost predicate Enabled(s: State, step: Step) {
    match step
    case Begin(next, changes) => s.phase.Idle? && Separate(next) && ChangeList(s.stored, next, changes)
    case Add(_, id) =>
      && s.phase.Adding? && s.phase.done < |s.phase.changes|
      && var p := s.phase.changes[s.phase.done];
         p in s.stored && p in s.phase.next && Fresh(RepoAt(s.repos, s.stored[p].target), id)
    case Commit(_) => s.phase.Adding? && s.phase.done == |s.phase.changes|
    case Remove(_, oldKey, newKey) =>
      && s.phase.Removing? && s.phase.done < |s.phase.changes|
      && var p := s.phase.changes[s.phase.done];
         p in s.phase.prev && p in s.stored
         && KeyOf(RepoAt(s.repos, s.stored[p].target), s.phase.prev[p].password, oldKey)
         && KeyOf(RepoAt(s.repos, s.stored[p].target), s.stored[p].password, newKey)
    case Finish => s.phase.Removing? && s.phase.done == |s.phase.changes|
    case Read(p) => p in s.stored && !s.stored[p].readOnly
    case Create(c, _) => c in s.creators && RepoAt(s.repos, c.target).Absent?
    case Crash => true
  }

  ghost function Next(s: State, step: Step): State
    requires Enabled(s, step)
  {
    match step
    case Begin(next, changes) => s.(phase := Adding(next, changes, 0, {}))
    case Add(fault, id) =>
      var p := s.phase.changes[s.phase.done];
      var t := s.stored[p].target;
      var r := RepoAt(s.repos, t);
      var (r', ok) := AddKey(r, s.stored[p].password, s.phase.next[p].password, !s.phase.next[p].readOnly, fault, id);
      var skipped := if r.Absent? then s.phase.skipped + {p} else s.phase.skipped;
      s.(repos := s.repos[t := r'],
         phase := if ok then s.phase.(done := s.phase.done + 1, skipped := skipped) else Idle)
    case Commit(ok) =>
      if !ok then s.(phase := Idle)
      else
        s.(stored := s.phase.next,
           tracked := Kept(s.tracked, s.stored, s.phase.next),
           phase := Removing(s.stored, s.phase.changes, 0))
    case Remove(fault, oldKey, newKey) =>
      var p := s.phase.changes[s.phase.done];
      var t := s.stored[p].target;
      var (r', _) := RemoveKey(RepoAt(s.repos, t), s.phase.prev[p].password, s.stored[p].password,
                               !s.stored[p].readOnly, fault, oldKey, newKey);
      s.(repos := s.repos[t := r'], phase := s.phase.(done := s.phase.done + 1))
    case Finish => s.(phase := Idle)
    case Read(p) => s.(creators := s.creators + {Creator(s.stored[p].target, s.stored[p].password)})
    case Create(c, id) => s.(repos := s.repos[c.target := Present(map[id := c.password])])
    case Crash => s.(phase := Idle, creators := {})
  }

  /** The stored password opens the repository, or there is none yet. */
  predicate Usable(repos: map<Target, Repo>, point: Point) {
    var r := RepoAt(repos, point.target);
    r.Absent? || r.Opens(point.password)
  }

  ghost predicate AllUsable(s: State) {
    forall p :: p in s.tracked ==> p in s.stored && Usable(s.repos, s.stored[p])
  }

  /** All keys of the repository have one and the same password. */
  predicate OnePassword(r: Repo) {
    r.Present? ==> forall j, k :: j in r.keys && k in r.keys ==> r.keys[j] == r.keys[k]
  }

  /** A point phase 1 has dealt with: its repository opens with the new password,
      or was absent then and has had one password only since. */
  predicate Prepared(s: State, p: PointId)
    requires s.phase.Adding? && p in s.stored && p in s.phase.next
  {
    var r := RepoAt(s.repos, s.stored[p].target);
    if p in s.phase.skipped then OnePassword(r) else r.Opens(s.phase.next[p].password)
  }

  /** What every step keeps, whatever jobs do. */
  ghost predicate Shape(s: State) {
    && Separate(s.stored) && (forall p :: p in s.tracked ==> p in s.stored)
    && match s.phase
       case Idle => true
       case Adding(next, changes, done, skipped) =>
         && Separate(next) && ChangeList(s.stored, next, changes) && done <= |changes|
         && skipped <= (set i | 0 <= i < done :: changes[i])
         && (forall i :: 0 <= i < done ==> Changed(s.stored, next, changes[i]) && Prepared(s, changes[i]))
       case Removing(prev, changes, done) => ChangeList(prev, s.stored, changes) && done <= |changes|
  }

  ghost predicate Inv(s: State) { Shape(s) && AllUsable(s) }

  /** A creation with a password that is no longer, or not yet, the stored one of
      the point on that target. */
  ghost predicate Stale(s: State, c: Creator) {
    exists p :: p in s.tracked && p in s.stored && s.stored[p].target == c.target && s.stored[p].password != c.password
  }

  /** No repository that phase 1 found absent has come into being since. */
  ghost predicate Undisturbed(s: State) {
    s.phase.Adding? ==>
      forall p :: p in s.phase.skipped && p in s.tracked && p in s.stored ==>
        RepoAt(s.repos, s.stored[p].target).Absent?
  }

  lemma AddShape(s: State, fault: Fault, id: nat)
    requires Shape(s) && Enabled(s, Add(fault, id))
    ensures Shape(Next(s, Add(fault, id)))
    ensures Undisturbed(s) ==> Undisturbed(Next(s, Add(fault, id)))
  {
    var t := Next(s, Add(fault, id));
    var p := s.phase.changes[s.phase.done];
    assert Changed(s.stored, s.phase.next, p);
    AddKeyFacts(RepoAt(s.repos, s.stored[p].target), s.stored[p].password, s.phase.next[p].password,
                !s.phase.next[p].readOnly, fault, id);
    hide AddKey;
    forall q | q in s.stored && q != p
      ensures RepoAt(t.repos, s.stored[q].target) == RepoAt(s.repos, s.stored[q].target)
    {
    }
    if t.phase.Adding? {
      assert t.phase.skipped <= (set i | 0 <= i < t.phase.done :: t.phase.changes[i]);
      forall i | 0 <= i < t.phase.done
        ensures Changed(t.stored, t.phase.next, t.phase.changes[i]) && Prepared(t, t.phase.changes[i])
      {
        if i < s.phase.done {
          assert s.phase.changes[i] != p && Prepared(s, s.phase.changes[i]);
        }
      }
      forall i | 0 <= i < s.phase.done
        ensures s.phase.changes[i] != p
      {
      }
    }
  }

  lemma AddUsable(s: State, fault: Fault, id: nat)
    requires Inv(s) && Enabled(s, Add(fault, id))
    ensures AllUsable(Next(s, Add(fault, id)))
  {
    var p := s.phase.changes[s.phase.done];
    AddKeyFacts(RepoAt(s.repos, s.stored[p].target), s.stored[p].password, s.phase.next[p].password,
                !s.phase.next[p].readOnly, fault, id);
    hide AddKey;
  }

  lemma RemoveUsable(s: State, fault: Fault, oldKey: nat, newKey: nat)
    requires Inv(s) && Enabled(s, Remove(fault, oldKey, newKey))
    ensures AllUsable(Next(s, Remove(fault, oldKey, newKey)))
  {
    var t := Next(s, Remove(fault, oldKey, newKey));
    var p := s.phase.changes[s.phase.done];
    assert p in s.phase.changes && Changed(s.phase.prev, s.stored, p);
    RemoveKeyFacts(RepoAt(s.repos, s.stored[p].target), s.phase.prev[p].password, s.stored[p].password,
                   !s.stored[p].readOnly, fault, oldKey, newKey);
    forall q | q in s.tracked
      ensures q in t.stored && Usable(t.repos, t.stored[q])
    {
      assert q in s.stored && Usable(s.repos, s.stored[q]);
      if q != p {
        assert s.stored[q].target != s.stored[p].target;
      }
    }
  }

  lemma OneKey(id: nat, pw: Password)
    ensures map[id := pw].Values == {pw} && OnePassword(Present(map[id := pw]))
  {
    var m := map[id := pw];
    assert m[id] == pw && id in m;
  }

  lemma CreateShape(s: State, c: Creator, id: nat)
    requires Shape(s) && Enabled(s, Create(c, id))
    ensures Shape(Next(s, Create(c, id)))
  {
    var t := Next(s, Create(c, id));
    OneKey(id, c.password);
    if s.phase.Adding? {
      forall i | 0 <= i < s.phase.done
        ensures Prepared(t, s.phase.changes[i])
      {
        assert Prepared(s, s.phase.changes[i]);
      }
    }
  }

  lemma ShapeStep(s: State, step: Step)
    requires Shape(s) && Enabled(s, step)
    ensures Shape(Next(s, step))
  {
    match step
    case Add(fault, id) => AddShape(s, fault, id);
    case Create(c, id) => CreateShape(s, c, id);
    case _ =>
  }

  /** Exactly when a creation is safe: it uses the stored password of the point on
      that target, unless the point is not under the promise. */
  lemma CreateSafeIff(s: State, c: Creator, id: nat)
    requires Inv(s) && Enabled(s, Create(c, id))
    ensures AllUsable(Next(s, Create(c, id))) <==> !Stale(s, c)
  {
    var t := Next(s, Create(c, id));
    OneKey(id, c.password);
    assert RepoAt(t.repos, c.target).keys.Values == {c.password};
    if Stale(s, c) {
      var p :| p in s.tracked && p in s.stored && s.stored[p].target == c.target && s.stored[p].password != c.password;
      assert !Usable(t.repos, t.stored[p]);
    } else {
      forall p | p in t.tracked
        ensures p in t.stored && Usable(t.repos, t.stored[p])
      {
        assert Usable(s.repos, s.stored[p]);
      }
    }
  }

  lemma SkippedKeepsOldPassword(s: State, p: PointId)
    requires Inv(s) && s.phase.Adding? && p in s.phase.skipped && p in s.tracked
    ensures p in s.stored && p in s.phase.next && Changed(s.stored, s.phase.next, p)
    ensures var r := RepoAt(s.repos, s.stored[p].target); r.Absent? || !r.Opens(s.phase.next[p].password)
  {
    var i :| 0 <= i < s.phase.done && s.phase.changes[i] == p;
    assert Prepared(s, s.phase.changes[i]) && Changed(s.stored, s.phase.next, p);
    assert Usable(s.repos, s.stored[p]);
  }

  /** Exactly when storing the new configuration is safe: every repository that
      phase 1 passed over as absent must still be absent. */
  lemma CommitSafeIff(s: State)
    requires Inv(s) && Enabled(s, Commit(true))
    ensures AllUsable(Next(s, Commit(true))) <==> Undisturbed(s)
  {
    var t := Next(s, Commit(true));
    if Undisturbed(s) {
      forall p | p in t.tracked
        ensures p in t.stored && Usable(t.repos, t.stored[p])
      {
        if Changed(s.stored, s.phase.next, p) {
          assert p in s.phase.changes;
          var i :| 0 <= i < |s.phase.changes| && s.phase.changes[i] == p;
          assert Prepared(s, s.phase.changes[i]);
        }
      }
    } else {
      var p :| p in s.phase.skipped && p in s.tracked && p in s.stored
               && !RepoAt(s.repos, s.stored[p].target).Absent?;
      SkippedKeepsOldPassword(s, p);
      assert p in t.tracked && !Usable(t.repos, t.stored[p]);
    }
  }

  // ── Runs ──────────────────────────────────────────────────────────────────

  /** The two steps that can lock a point out: a stale creation, and storing the
      new configuration after a skipped repository has been created. */
  ghost predicate LocksOut(s: State, step: Step) {
    (step.Create? && Stale(s, step.c)) || (step == Commit(true) && !Undisturbed(s))
  }

  lemma UsableStepIff(s: State, step: Step)
    requires Inv(s) && Enabled(s, step)
    ensures AllUsable(Next(s, step)) <==> !LocksOut(s, step)
    ensures Shape(Next(s, step))
  {
    ShapeStep(s, step);
    match step
    case Add(fault, id) => AddUsable(s, fault, id);
    case Commit(ok) => if ok { CommitSafeIff(s); }
    case Remove(fault, oldKey, newKey) => RemoveUsable(s, fault, oldKey, newKey);
    case Create(c, id) => CreateSafeIff(s, c, id);
    case _ =>
  }

  ghost predicate ValidRun(s: State, run: seq<Step>)
    decreases |run|
  {
    run == [] || (Enabled(s, run[0]) && ValidRun(Next(s, run[0]), run[1..]))
  }

  ghost function Final(s: State, run: seq<Step>): State
    requires ValidRun(s, run)
    decreases |run|
  {
    if run == [] then s else Final(Next(s, run[0]), run[1..])
  }

  /** Every state of the run has all tracked points usable. */
  ghost predicate AlwaysUsable(s: State, run: seq<Step>)
    requires ValidRun(s, run)
    decreases |run|
  {
    AllUsable(s) && (run == [] || AlwaysUsable(Next(s, run[0]), run[1..]))
  }

  ghost predicate NoLockout(s: State, run: seq<Step>)
    requires ValidRun(s, run)
    decreases |run|
  {
    run == [] || (!LocksOut(s, run[0]) && NoLockout(Next(s, run[0]), run[1..]))
  }

  /** Over any number of requests, with an error or a crash at any step and jobs
      creating repositories at any moment: the stored password of every point that
      kept its id and target opens its repository in every state, or there is no
      repository yet, exactly when no step of the two named kinds occurs. */
  lemma {:induction false} RotationSafeIff(s: State, run: seq<Step>)
    requires Inv(s) && ValidRun(s, run)
    ensures AlwaysUsable(s, run) <==> NoLockout(s, run)
    decreases |run|
  {
    if run != [] {
      UsableStepIff(s, run[0]);
      if !LocksOut(s, run[0]) {
        RotationSafeIff(Next(s, run[0]), run[1..]);
      } else {
        NotUsableNow(Next(s, run[0]), run[1..]);
      }
    }
  }

  lemma NotUsableNow(s: State, run: seq<Step>)
    requires ValidRun(s, run) && !AllUsable(s)
    ensures !AlwaysUsable(s, run)
  {
  }

  /** What jobs must not do: create a repository with a password that is not the
      stored one, or one that a running request has passed over as absent. */
  ghost predicate Interferes(s: State, step: Step) {
    step.Create? &&
    (Stale(s, step.c)
     || (s.phase.Adding? && exists p :: p in s.phase.skipped && p in s.tracked && p in s.stored
                                        && s.stored[p].target == step.c.target))
  }

  ghost predicate NoInterference(s: State, run: seq<Step>)
    requires ValidRun(s, run)
    decreases |run|
  {
    run == [] || (!Interferes(s, run[0]) && NoInterference(Next(s, run[0]), run[1..]))
  }

  lemma StaysUndisturbed(s: State, step: Step)
    requires Inv(s) && Enabled(s, step) && Undisturbed(s) && !Interferes(s, step)
    ensures Undisturbed(Next(s, step))
  {
    match step
    case Add(fault, id) => AddShape(s, fault, id);
    case _ =>
  }

  /** Without such creations, every state of every run is safe. */
  lemma {:induction false} RotationIsCrashSafe(s: State, run: seq<Step>)
    requires Inv(s) && Undisturbed(s) && ValidRun(s, run) && NoInterference(s, run)
    ensures Inv(Final(s, run)) && AlwaysUsable(s, run)
    decreases |run|
  {
    if run != [] {
      UsableStepIff(s, run[0]);
      StaysUndisturbed(s, run[0]);
      RotationIsCrashSafe(Next(s, run[0]), run[1..]);
    }
  }

  /** No key of `a` is missing from `b`. */
  ghost predicate KeysKept(a: map<Target, Repo>, b: map<Target, Repo>) {
    forall t :: RepoAt(a, t).Present? ==> RepoAt(b, t).Present? && RepoAt(a, t).keys.Items <= RepoAt(b, t).keys.Items
  }

  predicate Uncommitted(run: seq<Step>) { forall k :: 0 <= k < |run| ==> run[k] != Commit(true) }

  lemma KeepsKeys(s: State, step: Step)
    requires Enabled(s, step) && step != Commit(true) && !s.phase.Removing?
    ensures var t := Next(s, step); t.stored == s.stored && !t.phase.Removing? && KeysKept(s.repos, t.repos)
  {
    if step.Add? {
      var p := s.phase.changes[s.phase.done];
      AddKeyFacts(RepoAt(s.repos, s.stored[p].target), s.stored[p].password, s.phase.next[p].password,
                  !s.phase.next[p].readOnly, step.fault, step.id);
    }
  }

  /** Until the new configuration is stored, whatever fails or crashes, the old
      one is untouched and every key of every repository is still there. */
  lemma {:induction false} PhaseOneIsHarmless(s: State, run: seq<Step>)
    requires ValidRun(s, run) && !s.phase.Removing? && Uncommitted(run)
    ensures Final(s, run).stored == s.stored && KeysKept(s.repos, Final(s, run).repos)
    decreases |run|
  {
    if run != [] {
      KeepsKeys(s, run[0]);
      PhaseOneIsHarmless(Next(s, run[0]), run[1..]);
    }
  }

  // ── What a run stores, and what it leaves alone ───────────────────────────

  /** A request that stores its configuration stores all of it, and nothing else is
      ever stored: with no further request the stored configuration is the new one if
      the store succeeded, and the old one otherwise. */
  lemma {:induction false} StoredIsRequested(s: State, next: Config, changes: seq<PointId>, run: seq<Step>)
    requires Enabled(s, Begin(next, changes)) && ValidRun(Next(s, Begin(next, changes)), run)
    requires forall k :: 0 <= k < |run| ==> !run[k].Begin?
    ensures Final(Next(s, Begin(next, changes)), run).stored == if Commit(true) in run then next else s.stored
  {
    StoredWhileAdding(Next(s, Begin(next, changes)), next, run);
  }

  lemma {:induction false} StoredWhileAdding(s: State, next: Config, run: seq<Step>)
    requires s.phase.Adding? && s.phase.next == next && ValidRun(s, run)
    requires forall k :: 0 <= k < |run| ==> !run[k].Begin?
    ensures Final(s, run).stored == if Commit(true) in run then next else s.stored
    decreases |run|
  {
    if run != [] {
      var t := Next(s, run[0]);
      assert Commit(true) in run <==> run[0] == Commit(true) || Commit(true) in run[1..];
      if t.phase.Adding? {
        StoredWhileAdding(t, next, run[1..]);
      } else {
        StoredForGood(t, run[1..]);
      }
    }
  }

  lemma {:induction false} StoredForGood(s: State, run: seq<Step>)
    requires !s.phase.Adding? && ValidRun(s, run) && forall k :: 0 <= k < |run| ==> !run[k].Begin?
    ensures Final(s, run).stored == s.stored && Commit(true) !in run
    decreases |run|
  {
    if run != [] {
      StoredForGood(Next(s, run[0]), run[1..]);
    }
  }

  /** A crash ends the request: the next one can begin at once, and without one nothing
      more is stored and no key is lost. */
  lemma CrashEndsRequest(s: State, run: seq<Step>, next: Config, changes: seq<PointId>)
    requires ValidRun(Next(s, Crash), run) && forall k :: 0 <= k < |run| ==> !run[k].Begin?
    ensures Final(Next(s, Crash), run).stored == s.stored && KeysKept(s.repos, Final(Next(s, Crash), run).repos)
    ensures Separate(next) && ChangeList(s.stored, next, changes) ==> Enabled(Next(s, Crash), Begin(next, changes))
  {
    StoredForGood(Next(s, Crash), run);
    PhaseOneIsHarmless(Next(s, Crash), run);
  }

  /** A point stays under the promise as long as every stored configuration keeps it
      on its target. */
  lemma {:induction false} TrackedStays(s: State, run: seq<Step>, p: PointId, t: Target)
    requires ValidRun(s, run) && p in s.tracked && p in s.stored && s.stored[p].target == t
    requires s.phase.Adding? ==> p in s.phase.next && s.phase.next[p].target == t
    requires forall k :: 0 <= k < |run| && run[k].Begin? ==> p in run[k].next && run[k].next[p].target == t
    ensures p in Final(s, run).tracked
    decreases |run|
  {
    if run != [] {
      TrackedStays(Next(s, run[0]), run[1..], p, t);
    }
  }

  /** All points on the target are read-only. */
  ghost predicate ReadOnlyAt(c: Config, t: Target) { forall p :: p in c && c[p].target == t ==> c[p].readOnly }

  /** A repository whose points are and stay read-only is never written to. */
  lemma {:induction false} ReadOnlyIsUntouched(s: State, run: seq<Step>, t: Target)
    requires ValidRun(s, run) && RepoAt(s.repos, t).Present? && Shape(s)
    requires ReadOnlyAt(s.stored, t) && (s.phase.Adding? ==> ReadOnlyAt(s.phase.next, t))
    requires forall k :: 0 <= k < |run| && run[k].Begin? ==> ReadOnlyAt(run[k].next, t)
    ensures RepoAt(Final(s, run).repos, t) == RepoAt(s.repos, t)
    decreases |run|
  {
    if run != [] {
      ShapeStep(s, run[0]);
      ReadOnlyStep(s, run[0], t);
      ReadOnlyIsUntouched(Next(s, run[0]), run[1..], t);
    }
  }

  lemma ReadOnlyStep(s: State, step: Step, t: Target)
    requires Enabled(s, step) && RepoAt(s.repos, t).Present? && Shape(s)
    requires ReadOnlyAt(s.stored, t) && (s.phase.Adding? ==> ReadOnlyAt(s.phase.next, t))
    requires step.Begin? ==> ReadOnlyAt(step.next, t)
    ensures var n := Next(s, step);
            && RepoAt(n.repos, t) == RepoAt(s.repos, t)
            && ReadOnlyAt(n.stored, t) && (n.phase.Adding? ==> ReadOnlyAt(n.phase.next, t))
  {
    if step.Add? {
      var p := s.phase.changes[s.phase.done];
      assert p in s.phase.changes && Changed(s.stored, s.phase.next, p);
      AddKeyFacts(RepoAt(s.repos, s.stored[p].target), s.stored[p].password, s.phase.next[p].password,
                  !s.phase.next[p].readOnly, step.fault, step.id);
    } else if step.Remove? {
      var p := s.phase.changes[s.phase.done];
      assert p in s.phase.changes && Changed(s.phase.prev, s.stored, p);
      RemoveKeyFacts(RepoAt(s.repos, s.stored[p].target), s.phase.prev[p].password, s.stored[p].password,
                     !s.stored[p].readOnly, step.fault, step.oldKey, step.newKey);
    }
  }

  // ── Jobs that may create a repository ─────────────────────────────────────

  predicate NoCrash(run: seq<Step>) { forall k :: 0 <= k < |run| ==> !run[k].Crash? }

  /** Some step of the run reads `c` out of the configuration stored at that moment,
      and no crash follows. */
  ghost predicate ReadIn(s: State, run: seq<Step>, c: Creator)
    requires ValidRun(s, run)
    decreases |run|
  {
    run != [] &&
    (ReadIn(Next(s, run[0]), run[1..], c)
     || (run[0].Read? && NoCrash(run[1..])
         && c == Creator(s.stored[run[0].p].target, s.stored[run[0].p].password)))
  }

  /** The jobs at large after a run are those that read the configuration of their
      time and that no crash has ended. */
  lemma {:induction false} JobsAtLargeIff(s: State, run: seq<Step>, c: Creator)
    requires ValidRun(s, run)
    ensures c in Final(s, run).creators <==> (c in s.creators && NoCrash(run)) || ReadIn(s, run, c)
    decreases |run|
  {
    if run != [] {
      assert NoCrash(run) <==> !run[0].Crash? && NoCrash(run[1..]);
      JobsAtLargeIff(Next(s, run[0]), run[1..], c);
    }
  }

  /** Nothing keeps a job from reading a writable point, at any stage of a request, or
      from creating the repository as long as there is none; it then has that job's key. */
  lemma JobsComeAndGo(s: State, p: PointId, c: Creator, id: nat)
    ensures p in s.stored && !s.stored[p].readOnly ==> Enabled(s, Read(p))
    ensures c in s.creators && RepoAt(s.repos, c.target).Absent? ==>
              && Enabled(s, Create(c, id))
              && Next(s, Create(c, id)).repos == s.repos[c.target := Present(map[id := c.password])]
  {
  }

  // ── A request that meets no fault ─────────────────────────────────────────

  const CLEAN := Fault(false, false, false, false, false)

  /** No fault, no crash, and no further request. */
  predicate Smooth(step: Step) {
    && (step.Add? || step.Remove? ==> step.fault == CLEAN)
    && !step.Begin? && !step.Crash? && !step.Finish? && step != Commit(false)
  }

  /** At most one key has the password. */
  predicate OneKeyWith(r: Repo, pw: Password) {
    r.Present? ==> forall j, k :: j in r.keys && k in r.keys && r.keys[j] == pw && r.keys[k] == pw ==> j == k
  }

  /** How far the change of point i of the list, from `old_` to `new_`, has got. */
  ghost predicate Rotating(s: State, i: nat, p: PointId, t: Target, old_: Password, new_: Password) {
    var r := RepoAt(s.repos, t);
    match s.phase
    case Idle => true
    case Adding(next, changes, done, _) =>
      && i < |changes| && changes[i] == p
      && p in s.stored && s.stored[p].target == t && s.stored[p].password == old_
      && p in next && next[p].target == t && next[p].password == new_ && !next[p].readOnly
      && OneKeyWith(r, old_) && (if done <= i then r.Opens(old_) else r.Opens(new_))
    case Removing(prev, changes, done) =>
      && i < |changes| && changes[i] == p
      && p in s.stored && s.stored[p] == Point(t, new_, false)
      && p in prev && prev[p].password == old_
      && OneKeyWith(r, old_) && r.Opens(new_) && (done > i ==> !r.Opens(old_))
  }

  lemma RotatingStep(s: State, step: Step, i: nat, p: PointId, t: Target, old_: Password, new_: Password)
    requires Shape(s) && Enabled(s, step) && Smooth(step) && old_ != new_
    requires Rotating(s, i, p, t, old_, new_)
    ensures Rotating(Next(s, step), i, p, t, old_, new_)
  {
    if step.Add? {
      RotatingAdd(s, step.id, i, p, t, old_, new_);
    } else if step.Remove? {
      RotatingRemove(s, step.oldKey, step.newKey, i, p, t, old_, new_);
    }
  }

  lemma RotatingAdd(s: State, id: nat, i: nat, p: PointId, t: Target, old_: Password, new_: Password)
    requires Shape(s) && Enabled(s, Add(CLEAN, id)) && old_ != new_ && Rotating(s, i, p, t, old_, new_)
    ensures Rotating(Next(s, Add(CLEAN, id)), i, p, t, old_, new_)
  {
    var q := s.phase.changes[s.phase.done];
    AddKeyFacts(RepoAt(s.repos, s.stored[q].target), s.stored[q].password, s.phase.next[q].password,
                !s.phase.next[q].readOnly, CLEAN, id);
    if s.phase.done != i {
      assert q != p && s.stored[q].target != t;
    }
  }

  lemma RotatingRemove(s: State, oldKey: nat, newKey: nat, i: nat, p: PointId, t: Target,
                       old_: Password, new_: Password)
    requires Shape(s) && Enabled(s, Remove(CLEAN, oldKey, newKey)) && old_ != new_
    requires Rotating(s, i, p, t, old_, new_)
    ensures Rotating(Next(s, Remove(CLEAN, oldKey, newKey)), i, p, t, old_, new_)
  {
    var q := s.phase.changes[s.phase.done];
    assert q in s.phase.changes && Changed(s.phase.prev, s.stored, q);
    RemoveKeyFacts(RepoAt(s.repos, s.stored[q].target), s.phase.prev[q].password, s.stored[q].password,
                   !s.stored[q].readOnly, CLEAN, oldKey, newKey);
    if s.phase.done != i {
      assert q != p && s.stored[q].target != t;
    }
  }

  lemma {:induction false} RotatingRun(s: State, run: seq<Step>, i: nat, p: PointId, t: Target,
                                       old_: Password, new_: Password)
    requires Shape(s) && ValidRun(s, run) && (forall k :: 0 <= k < |run| ==> Smooth(run[k])) && old_ != new_
    requires Rotating(s, i, p, t, old_, new_)
    ensures Rotating(Final(s, run), i, p, t, old_, new_)
    decreases |run|
  {
    if run != [] {
      ShapeStep(s, run[0]);
      RotatingStep(s, run[0], i, p, t, old_, new_);
      RotatingRun(Next(s, run[0]), run[1..], i, p, t, old_, new_);
    }
  }

  /** A request that gets to its end without a fault has changed the password of
      every repository it was to change: whichever existed and opened with one key
      of the old password now opens with the new one, and the old one is useless. */
  lemma SmoothRequestRotates(s: State, next: Config, changes: seq<PointId>, run: seq<Step>, p: PointId)
    requires Shape(s) && Enabled(s, Begin(next, changes)) && p in changes
    requires ValidRun(Next(s, Begin(next, changes)), run) && forall k :: 0 <= k < |run| ==> Smooth(run[k])
    requires Enabled(Final(Next(s, Begin(next, changes)), run), Finish)
    requires var r := RepoAt(s.repos, s.stored[p].target);
             r.Opens(s.stored[p].password) && OneKeyWith(r, s.stored[p].password) && !next[p].readOnly
    ensures var r := RepoAt(Final(Next(s, Begin(next, changes)), run).repos, s.stored[p].target);
            r.Opens(next[p].password) && !r.Opens(s.stored[p].password)
  {
    var i :| 0 <= i < |changes| && changes[i] == p;
    var s1 := Next(s, Begin(next, changes));
    ShapeStep(s, Begin(next, changes));
    var t, a, b := s.stored[p].target, s.stored[p].password, next[p].password;
    assert Rotating(s1, i, p, t, a, b);
    RotatingRun(s1, run, i, p, t, a, b);
    ChangesFixed(s1, run);
  }

  /** The repositories a request changes can be changed: absent, or open to the old
      password and writable. */
  ghost predicate Changeable(s: State, next: Config, p: PointId) {
    p in s.stored && p in next &&
    var r := RepoAt(s.repos, s.stored[p].target);
    r.Absent? || (r.Opens(s.stored[p].password) && !next[p].readOnly)
  }

  lemma FreshKey(r: Repo) returns (id: nat)
    ensures Fresh(r, id)
  {
    id := 0;
    if r.Present? {
      var n := KeyBound(r.keys.Keys);
      id := n;
    }
  }

  lemma {:induction false} KeyBound(ids: set<nat>) returns (n: nat)
    ensures forall k <- ids :: k < n
  {
    if ids == {} {
      n := 0;
    } else {
      var x :| x in ids;
      var m := KeyBound(ids - {x});
      n := if m > x then m else x + 1;
      forall k <- ids
        ensures k < n
      {
        assert k == x || k in ids - {x};
      }
    }
  }

  lemma SomeKey(r: Repo, pw: Password) returns (k: nat)
    ensures KeyOf(r, pw, k)
  {
    k := 0;
    if r.Opens(pw) {
      k :| k in r.keys && r.keys[k] == pw;
    }
  }

  /** One step after another, with the changes still to be made possible. */
  lemma {:induction false} AddsGoThrough(s: State) returns (run: seq<Step>)
    requires Shape(s) && s.phase.Adding?
    requires forall i :: s.phase.done <= i < |s.phase.changes| ==> Changeable(s, s.phase.next, s.phase.changes[i])
    ensures ValidRun(s, run) && (forall k :: 0 <= k < |run| ==> Smooth(run[k]) && run[k].Add?)
    ensures var t := Final(s, run);
            && Shape(t) && t.stored == s.stored && t.phase.Adding? && t.phase.next == s.phase.next
            && t.phase.changes == s.phase.changes && t.phase.done == |s.phase.changes|
    decreases |s.phase.changes| - s.phase.done
  {
    if s.phase.done == |s.phase.changes| {
      run := [];
    } else {
      var p := s.phase.changes[s.phase.done];
      assert Changeable(s, s.phase.next, p);
      var id := FreshKey(RepoAt(s.repos, s.stored[p].target));
      assert p in s.phase.changes;
      AddGoesThrough(s, id);
      ShapeStep(s, Add(CLEAN, id));
      var rest := AddsGoThrough(Next(s, Add(CLEAN, id)));
      run := [Add(CLEAN, id)] + rest;
      assert run[1..] == rest;
    }
  }

  lemma AddGoesThrough(s: State, id: nat)
    requires Shape(s) && s.phase.Adding? && s.phase.done < |s.phase.changes|
    requires forall i :: s.phase.done <= i < |s.phase.changes| ==> Changeable(s, s.phase.next, s.phase.changes[i])
    requires var p := s.phase.changes[s.phase.done]; p in s.stored && Fresh(RepoAt(s.repos, s.stored[p].target), id)
    ensures Enabled(s, Add(CLEAN, id))
    ensures var t := Next(s, Add(CLEAN, id));
            && t.phase.Adding? && t.phase.done == s.phase.done + 1 && t.phase.changes == s.phase.changes
            && t.phase.next == s.phase.next && t.stored == s.stored
            && forall i :: t.phase.done <= i < |s.phase.changes| ==> Changeable(t, s.phase.next, s.phase.changes[i])
  {
    var p := s.phase.changes[s.phase.done];
    var t := Next(s, Add(CLEAN, id));
    AddKeyFacts(RepoAt(s.repos, s.stored[p].target), s.stored[p].password, s.phase.next[p].password,
                !s.phase.next[p].readOnly, CLEAN, id);
    hide AddKey;
    forall i | s.phase.done < i < |s.phase.changes|
      ensures Changeable(t, s.phase.next, s.phase.changes[i])
    {
      var q := s.phase.changes[i];
      assert q != p && Changeable(s, s.phase.next, q);
      assert s.stored[q].target != s.stored[p].target;
    }
  }

  lemma {:induction false} RemovesGoThrough(s: State) returns (run: seq<Step>)
    requires Shape(s) && s.phase.Removing?
    ensures ValidRun(s, run) && (forall k :: 0 <= k < |run| ==> Smooth(run[k]) && run[k].Remove?)
    ensures var t := Final(s, run); t.stored == s.stored && Enabled(t, Finish)
    decreases |s.phase.changes| - s.phase.done
  {
    if s.phase.done == |s.phase.changes| {
      run := [];
    } else {
      var p := s.phase.changes[s.phase.done];
      assert p in s.phase.changes && Changed(s.phase.prev, s.stored, p);
      var r := RepoAt(s.repos, s.stored[p].target);
      var oldKey := SomeKey(r, s.phase.prev[p].password);
      var newKey := SomeKey(r, s.stored[p].password);
      ShapeStep(s, Remove(CLEAN, oldKey, newKey));
      var rest := RemovesGoThrough(Next(s, Remove(CLEAN, oldKey, newKey)));
      run := [Remove(CLEAN, oldKey, newKey)] + rest;
      assert run[1..] == rest;
    }
  }

  lemma {:induction false} RunsJoin(s: State, first: seq<Step>, then_: seq<Step>)
    requires ValidRun(s, first) && ValidRun(Final(s, first), then_)
    ensures ValidRun(s, first + then_) && Final(s, first + then_) == Final(Final(s, first), then_)
    decreases |first|
  {
    if first == [] {
      assert first + then_ == then_;
    } else {
      RunsJoin(Next(s, first[0]), first[1..], then_);
      assert (first + then_)[1..] == first[1..] + then_;
    }
  }

  /** Every configuration without shared targets can be requested of an idle server. */
  lemma CanBeRequested(s: State, next: Config) returns (changes: seq<PointId>)
    requires s.phase.Idle? && Separate(next)
    ensures Enabled(s, Begin(next, changes))
  {
    changes := Arranged(set p | p in s.stored && Changed(s.stored, next, p));
  }

  lemma {:induction false} Arranged(points: set<PointId>) returns (list: seq<PointId>)
    ensures (forall p :: p in list <==> p in points) && forall i, j :: 0 <= i < j < |list| ==> list[i] != list[j]
  {
    if points == {} {
      list := [];
    } else {
      var p :| p in points;
      var rest := Arranged(points - {p});
      list := rest + [p];
    }
  }

  /** Every request whose repositories can be changed can be carried through: it ends
      with its configuration stored and the server ready for the next request. */
  lemma RequestGoesThrough(s: State, next: Config, changes: seq<PointId>) returns (run: seq<Step>)
    requires Shape(s) && Enabled(s, Begin(next, changes)) && forall p <- changes :: Changeable(s, next, p)
    ensures ValidRun(Next(s, Begin(next, changes)), run) && forall k :: 0 <= k < |run| ==> Smooth(run[k])
    ensures var t := Final(Next(s, Begin(next, changes)), run);
            && t.stored == next && Enabled(t, Finish)
            && Next(t, Finish).phase.Idle? && Next(t, Finish).stored == next
  {
    var s1 := Next(s, Begin(next, changes));
    ShapeStep(s, Begin(next, changes));
    forall i | 0 <= i < |changes|
      ensures Changeable(s1, next, changes[i])
    {
      assert changes[i] in changes && Changeable(s, next, changes[i]);
    }
    var adds := AddsGoThrough(s1);
    var s2 := Final(s1, adds);
    var s3 := Next(s2, Commit(true));
    ShapeStep(s2, Commit(true));
    var removes := RemovesGoThrough(s3);
    CommitThen(s2, removes);
    RunsJoin(s1, adds, [Commit(true)] + removes);
    run := adds + ([Commit(true)] + removes);
  }

  lemma CommitThen(s: State, rest: seq<Step>)
    requires Enabled(s, Commit(true)) && ValidRun(Next(s, Commit(true)), rest)
    ensures ValidRun(s, [Commit(true)] + rest)
    ensures Final(s, [Commit(true)] + rest) == Final(Next(s, Commit(true)), rest)
  {
    assert ([Commit(true)] + rest)[1..] == rest;
  }

  lemma {:induction false} ChangesFixed(s: State, run: seq<Step>)
    requires !s.phase.Idle? && ValidRun(s, run) && forall k :: 0 <= k < |run| ==> Smooth(run[k])
    ensures !Final(s, run).phase.Idle? ==> Final(s, run).phase.changes == s.phase.changes
    decreases |run|
  {
    if run != [] {
      if Next(s, run[0]).phase.Idle? {
        StaysIdle(Next(s, run[0]), run[1..]);
      } else {
        ChangesFixed(Next(s, run[0]), run[1..]);
      }
    }
  }

  lemma {:induction false} StaysIdle(s: State, run: seq<Step>)
    requires s.phase.Idle? && ValidRun(s, run) && forall k :: 0 <= k < |run| ==> Smooth(run[k])
    ensures Final(s, run).phase.Idle?
    decreases |run|
  {
    if run != [] {
      StaysIdle(Next(s, run[0]), run[1..]);
    }
  }

  // ── The two races ─────────────────────────────────────────────────────────

  lemma Prepend(s: State, step: Step, next: State, rest: seq<Step>, end: State)
    requires Enabled(s, step) && Next(s, step) == next
    requires ValidRun(next, rest) && Final(next, rest) == end
    ensures ValidRun(s, [step] + rest) && Final(s, [step] + rest) == end
  {
    assert ([step] + rest)[1..] == rest;
  }

  lemma EmptyRun(s: State)
    ensures ValidRun(s, []) && Final(s, []) == s
  {
  }

  /** A point on target `t` that has no repository yet, its password about to
      change from `a` to `b`, and a job that has read `a`. */
  function Before(p: PointId, t: Target, a: Password): State {
    State(map[], map[p := Point(t, a, false)], {p}, {Creator(t, a)}, Idle)
  }

  function InPhaseOne(p: PointId, t: Target, a: Password, b: Password): State {
    Before(p, t, a).(phase := Adding(map[p := Point(t, b, false)], [p], 0, {}))
  }

  /** Phase 1 has looked at the point; its target holds `r` by now. */
  function PassedOver(p: PointId, t: Target, a: Password, b: Password, r: Repo): State {
    Before(p, t, a).(repos := map[t := r], phase := Adding(map[p := Point(t, b, false)], [p], 1, {p}))
  }

  function Stored(p: PointId, t: Target, a: Password, b: Password, r: Repo, done: nat): State {
    State(map[t := r], map[p := Point(t, b, false)], {p}, {Creator(t, a)},
          Removing(map[p := Point(t, a, false)], [p], done))
  }

  lemma LeadIn(p: PointId, t: Target, a: Password, b: Password, rest: seq<Step>, end: State)
    requires a != b && ValidRun(PassedOver(p, t, a, b, Absent), rest)
    requires Final(PassedOver(p, t, a, b, Absent), rest) == end
    ensures var s := Before(p, t, a).(creators := {});
            var run := [Read(p), Begin(map[p := Point(t, b, false)], [p]), Add(CLEAN, 0)] + rest;
            Inv(s) && ValidRun(s, run) && Final(s, run) == end
  {
    hide ValidRun, Final;
    var begin := Begin(map[p := Point(t, b, false)], [p]);
    var s1, s2 := InPhaseOne(p, t, a, b), PassedOver(p, t, a, b, Absent);
    var s2' := Next(s1, Add(CLEAN, 0));
    assert s2'.repos == s2.repos && s2'.phase.skipped == s2.phase.skipped && s2'.phase == s2.phase;
    Prepend(InPhaseOne(p, t, a, b), Add(CLEAN, 0), PassedOver(p, t, a, b, Absent), rest, end);
    Prepend(Before(p, t, a), begin, InPhaseOne(p, t, a, b), [Add(CLEAN, 0)] + rest, end);
    Prepend(Before(p, t, a).(creators := {}), Read(p), Before(p, t, a), [begin] + ([Add(CLEAN, 0)] + rest), end);
    assert [Read(p)] + ([begin] + ([Add(CLEAN, 0)] + rest)) == [Read(p), begin, Add(CLEAN, 0)] + rest;
  }

  lemma LockedOut(p: PointId, t: Target, a: Password, b: Password, done: nat)
    requires a != b
    ensures !AllUsable(Stored(p, t, a, b, Present(map[0 := a]), done))
    ensures !AllUsable(Stored(p, t, a, b, Present(map[0 := a]), done).(phase := Idle))
  {
    OneKey(0, a);
    var s := Stored(p, t, a, b, Present(map[0 := a]), done);
    assert p in s.tracked && RepoAt(s.repos, t) == Present(map[0 := a]);
  }

  /** The first race: a repository created between phase 1 and the store of the
      new configuration is locked out by that store. */
  lemma CreationRaceLocksOut(p: PointId, t: Target, a: Password, b: Password) returns (run: seq<Step>)
    requires a != b
    ensures var s := Before(p, t, a).(creators := {});
            && Inv(s) && ValidRun(s, run) && !AllUsable(Final(s, run))
            && run == [Read(p), Begin(map[p := Point(t, b, false)], [p]), Add(CLEAN, 0)]
                      + [Create(Creator(t, a), 0), Commit(true)]
  {
    hide ValidRun, Final;
    var r := Present(map[0 := a]);
    var end := Stored(p, t, a, b, r, 0);
    EmptyRun(end);
    Prepend(PassedOver(p, t, a, b, r), Commit(true), end, [], end);
    Prepend(PassedOver(p, t, a, b, Absent), Create(Creator(t, a), 0), PassedOver(p, t, a, b, r),
            [Commit(true)] + [], end);
    var rest := [Create(Creator(t, a), 0)] + ([Commit(true)] + []);
    LeadIn(p, t, a, b, rest, end);
    LockedOut(p, t, a, b, 0);
    assert rest == [Create(Creator(t, a), 0), Commit(true)];
    run := [Read(p), Begin(map[p := Point(t, b, false)], [p]), Add(CLEAN, 0)] + rest;
  }

  /** The second race: a job that read the old password creates the repository
      after the whole request has ended well. */
  lemma LateCreationLocksOut(p: PointId, t: Target, a: Password, b: Password) returns (run: seq<Step>)
    requires a != b
    ensures var s := Before(p, t, a).(creators := {});
            && Inv(s) && ValidRun(s, run) && !AllUsable(Final(s, run))
            && run == [Read(p), Begin(map[p := Point(t, b, false)], [p]), Add(CLEAN, 0)]
                      + [Commit(true), Remove(CLEAN, 0, 0), Finish, Create(Creator(t, a), 0)]
  {
    hide ValidRun, Final;
    var late := Create(Creator(t, a), 0);
    var end := Stored(p, t, a, b, Present(map[0 := a]), 1).(phase := Idle);
    EmptyRun(end);
    Prepend(Stored(p, t, a, b, Absent, 1).(phase := Idle), late, end, [], end);
    Prepend(Stored(p, t, a, b, Absent, 1), Finish, Stored(p, t, a, b, Absent, 1).(phase := Idle), [late] + [], end);
    Prepend(Stored(p, t, a, b, Absent, 0), Remove(CLEAN, 0, 0), Stored(p, t, a, b, Absent, 1),
            [Finish] + ([late] + []), end);
    var last := [Remove(CLEAN, 0, 0)] + ([Finish] + ([late] + []));
    Prepend(PassedOver(p, t, a, b, Absent), Commit(true), Stored(p, t, a, b, Absent, 0), last, end);
    LeadIn(p, t, a, b, [Commit(true)] + last, end);
    LockedOut(p, t, a, b, 1);
    assert [Commit(true)] + last == [Commit(true), Remove(CLEAN, 0, 0), Finish, late];
    run := [Read(p), Begin(map[p := Point(t, b, false)], [p]), Add(CLEAN, 0)] + ([Commit(true)] + last);
  }
}
