/** One retention run over a repository: time rules, then the space rule. */
module RetentionRun {
  import opened Prelude
  import opened Fifo
  import opened SpaceReclaim

  class Repository {
    var snapshots: seq<Snapshot>

    constructor (snapshots: seq<Snapshot>)
      ensures this.snapshots == snapshots
    {
      this.snapshots := snapshots;
    }

    method Delete(ids: set<nat>)
      modifies this
      ensures snapshots == Filter(Alive(ids), old(snapshots))
    {
      snapshots := Filter(Alive(ids), snapshots);
    }
  }

  /** How the repository lists its snapshots and grouping its groups, in each round. */
  type Lister = (nat, seq<Snapshot>) -> (seq<Snapshot>, seq<nat>)

  ghost predicate ListsAt(list: Lister, order: seq<nat>, round: nat, now: seq<Snapshot>) {
    var (listing, groups) := list(round, now);
    Candidates(listing, groups) == Candidates(now, order)
  }

  /** In every round the listing gives the candidates of the fixed order. */
  ghost predicate ListsAlike(list: Lister, order: seq<nat>, all: seq<Snapshot>) {
    forall round: nat, gone: set<nat> :: ListsAt(list, order, round, Filter(Alive(gone), all))
  }

  /** The listing names every snapshot and every group once. */
  ghost predicate ListsTruly(list: Lister, order: seq<nat>, round: nat, now: seq<Snapshot>) {
    var (listing, groups) := list(round, now);
    && DistinctIds(listing) && SameMembers(now, listing)
    && NoRepeats(groups) && forall x <- now :: x.group in order <==> x.group in groups
  }

  /** Any true listing will do when the times tell the snapshots apart; it may come in
      another order each time. */
  lemma AnyListingWillDo(list: Lister, order: seq<nat>, all: seq<Snapshot>)
    requires DistinctIds(all) && DistinctTimes(all) && NoRepeats(order)
    requires forall round: nat, gone: set<nat> :: ListsTruly(list, order, round, Filter(Alive(gone), all))
    ensures ListsAlike(list, order, all)
  {
    hide Candidates, DistinctTimes, DistinctIds, NoRepeats, SameMembers;
    forall round: nat, gone: set<nat>
      ensures ListsAt(list, order, round, Filter(Alive(gone), all))
    {
      var now := Filter(Alive(gone), all);
      assert ListsTruly(list, order, round, now);
      FilterDistinct(Alive(gone), all);
      StillDistinctTimes(Alive(gone), all);
      CandidatesOfAnyListing(now, order, list(round, now).0, list(round, now).1);
    }
  }

  /** So does a listing that keeps its order, whatever the times. */
  lemma FixedListingWillDo(order: seq<nat>, all: seq<Snapshot>)
    ensures ListsAlike((round: nat, now: seq<Snapshot>) => (now, order), order, all)
  {
  }

  lemma StillDistinctTimes(p: Snapshot -> bool, all: seq<Snapshot>)
    requires DistinctTimes(all)
    ensures DistinctTimes(Filter(p, all))
  {
    forall x <- Filter(p, all)
      ensures x in all
    {
      FilterIn(p, all, x);
    }
  }

  lemma ListsAlikeLater(list: Lister, order: seq<nat>, all: seq<Snapshot>, gone: set<nat>)
    requires ListsAlike(list, order, all)
    ensures ListsAlike(list, order, Filter(Alive(gone), all))
  {
    hide ListsAt;
    forall round: nat, more: set<nat>
      ensures ListsAt(list, order, round, Filter(Alive(more), Filter(Alive(gone), all)))
    {
      AliveTwice(all, gone, more);
    }
  }

  datatype Report = Report(timeDeleted: nat, spaceDeleted: nat, bytesFreed: nat)

  lemma {:induction false} FreedSnoc(rounds: seq<Log>, log: Log)
    ensures Freed(rounds + [log]) == Freed(rounds) + log.freed
  {
    if rounds == [] {
      assert rounds + [log] == [log] && Freed([log][1..]) == 0;
    } else {
      FreedSnoc(rounds[1..], log);
      assert (rounds + [log])[1..] == rounds[1..] + [log];
    }
  }

  /** The repository after the first `d` of the initial candidates are gone. */
  ghost predicate Walked(all: seq<Snapshot>, order: seq<nat>, now: seq<Snapshot>, gone: set<nat>, d: nat) {
    var c := Candidates(all, order);
    && d <= |c| && gone == Ids(c[..d])
    && now == Filter(Alive(gone), all) && Candidates(now, order) == c[d..]
  }

  /** What a round that deleted `d` more, and attempted a deletion of `a`, left. */
  ghost predicate Left(all: seq<Snapshot>, order: seq<nat>, now: seq<Snapshot>, gone: set<nat>, d: nat, a: nat) {
    var c := Candidates(all, order);
    && d + a <= |c|
    && now == Filter(Alive(gone), all) && Ids(c[..d]) <= gone <= Ids(c[..d + a])
  }

  /** How a run leaves the repository: it has deleted exactly the first `d` of the
      initial candidates, unless a deletion failed half way. */
  ghost predicate Ended(all: seq<Snapshot>, order: seq<nat>, now: seq<Snapshot>, gone: set<nat>,
                        exit: Exit, d: nat, a: nat) {
    if exit == Failed && a > 0 then Left(all, order, now, gone, d, a) else Walked(all, order, now, gone, d)
  }

  /** Deleting any part of the next `n` candidates. */
  lemma DeleteNext(all: seq<Snapshot>, order: seq<nat>, now: seq<Snapshot>, gone: set<nat>, d: nat,
                   ids: set<nat>, n: nat)
    requires DistinctIds(all) && NoRepeats(order) && Walked(all, order, now, gone, d)
    requires var c := Candidates(all, order); d + n <= |c| && ids <= Ids(c[d..d + n])
    ensures Left(all, order, Filter(Alive(ids), now), gone + ids, d, n)
    ensures ids == Ids(Candidates(all, order)[d..d + n]) ==>
              Walked(all, order, Filter(Alive(ids), now), gone + ids, d + n)
              && Left(all, order, Filter(Alive(ids), now), gone + ids, d + n, 0)
  {
    hide Candidates, Filter, DistinctIds, NoRepeats, Ids;
    var c := Candidates(all, order);
    AliveTwice(all, gone, ids);
    IdsSplit(c, d, n);
    CandidatesAfterDeletion(all, order, d + n);
  }

  lemma IdsSplit(c: seq<Snapshot>, d: nat, n: nat)
    requires d + n <= |c|
    ensures Ids(c[..d + n]) == Ids(c[..d]) + Ids(c[d..d + n])
  {
    var a, b := c[..d], c[d..d + n];
    assert c[..d + n] == a + b;
    forall x | x in a + b
      ensures x in a || x in b
    {
    }
  }

  /** Deletes a batch; a failing call may still have removed some of it. */
  method DeleteBatch(repo: Repository, ghost order: seq<nat>, ghost all: seq<Snapshot>, ghost d: nat, gone: set<nat>,
                     batch: seq<Snapshot>, fails: bool, lost: set<nat>)
    returns (gone': set<nat>)
    requires DistinctIds(all) && NoRepeats(order) && Walked(all, order, repo.snapshots, gone, d)
    requires batch <= Candidates(all, order)[d..]
    modifies repo
    ensures fails ==> Left(all, order, repo.snapshots, gone', d, |batch|)
    ensures !fails ==> Walked(all, order, repo.snapshots, gone', d + |batch|)
  {
    hide Candidates, Filter, DistinctIds, NoRepeats, Left;
    ghost var c := Candidates(all, order);
    assert c[d..][..|batch|] == c[d..d + |batch|];
    var ids := if fails then Ids(batch) * lost else Ids(batch);
    DeleteNext(all, order, repo.snapshots, gone, d, ids, |batch|);
    repo.Delete(ids);
    gone' := gone + ids;
  }

  /** One round: measure, list the candidates again, delete a batch, prune. */
  method RunRound(repo: Repository, list: Lister, round: nat, ghost order: seq<nat>, ghost all: seq<Snapshot>,
                  ghost d: nat, gone: set<nat>,
                  maxBytes: nat, target: nat, minBatch: nat, ghost empties: nat, dryRun: bool,
                  e: Round, lost: set<nat>)
    returns (t: Turn, gone': set<nat>)
    requires DistinctIds(all) && NoRepeats(order) && Walked(all, order, repo.snapshots, gone, d)
    requires ListsAt(list, order, round, repo.snapshots)
    modifies repo
    ensures t == TurnOf(Loop(Candidates(all, order)[d..], maxBytes, target, minBatch, empties, dryRun), e)
    ensures t.Go? ==> Walked(all, order, repo.snapshots, gone', d + t.log.batch)
    ensures t.Stop? ==> Ended(all, order, repo.snapshots, gone', t.exit, d + t.deleted, t.attempted)
    ensures dryRun ==> t.Stop? && repo.snapshots == old(repo.snapshots) && gone' == gone
  {
    hide Candidates, Filter, DistinctIds, NoRepeats, Left, BatchLen, Ids;
    ghost var l := Loop(Candidates(all, order)[d..], maxBytes, target, minBatch, empties, dryRun);
    gone' := gone;
    var free := SatSub(maxBytes, e.before);
    if e.cancelled {
      t := Stop(Cancelled, 0, 0);
    } else if e.usageFails {
      t := Stop(Failed, 0, 0);
    } else if free >= target {
      t := Stop(Met, 0, 0);
    } else if e.openFails {
      t := Stop(Failed, 0, 0);
    } else {
      var deficit := target - free;
      var (listing, groups) := list(round, repo.snapshots);
      var candidates := FifoCandidates(listing, groups);
      assert candidates == l.c;
      if candidates == [] {
        return Stop(Exhausted, 0, 0), gone';
      }
      var batch := TakeBatch(candidates, deficit, minBatch);
      BatchIsShortest(l.c, deficit, minBatch, 0);
      assert l.Entry(e).batch == |batch| > 0;
      if dryRun {
        return Stop(Planned, 0, |batch|), gone';
      }
      gone' := DeleteBatch(repo, order, all, d, gone, batch, e.deleteFails, lost);
      if e.deleteFails {
        t := Stop(Failed, 0, |batch|);
      } else if e.pruneFails {
        t := Stop(Failed, |batch|, 0);
      } else {
        t := Go(Log(|batch|, deficit, SatSub(e.before, e.after)));
      }
    }
  }

  /** Bookkeeping of the loop: what is known so far, followed by the rest. */
  lemma OneMoreRound(rounds: seq<Log>, deleted: nat, l: Loop, env: seq<Round>)
    requires env != []
    ensures var t, whole := TurnOf(l, env[0]), After(rounds, deleted, Reclaim(l, env));
            if t.Stop? then whole == Outcome(t.exit, rounds, deleted + t.deleted, t.attempted)
            else
              && Freed(rounds + [t.log]) == Freed(rounds) + t.log.freed
              && (if t.log.freed == 0 && l.empties + 1 >= 2
                  then whole == Outcome(Breaker, rounds + [t.log], deleted + t.log.batch, 0)
                  else whole == After(rounds + [t.log], deleted + t.log.batch, Reclaim(l.Advance(t.log), env[1..])))
  {
    var t := TurnOf(l, env[0]);
    if t.Stop? {
      assert rounds + [] == rounds;
    } else {
      FreedSnoc(rounds, t.log);
      if !(t.log.freed == 0 && l.empties + 1 >= 2) {
        var rest := Reclaim(l.Advance(t.log), env[1..]).rounds;
        assert rounds + ([t.log] + rest) == (rounds + [t.log]) + rest;
      }
    }
  }

  lemma WalkedIsListed(list: Lister, order: seq<nat>, all: seq<Snapshot>, now: seq<Snapshot>, round: nat,
                       gone: set<nat>, d: nat)
    requires ListsAlike(list, order, all) && Walked(all, order, now, gone, d)
    ensures ListsAt(list, order, round, now)
  {
    assert ListsAt(list, order, round, Filter(Alive(gone), all));
  }

  lemma NothingYet(c: seq<Snapshot>, maxBytes: nat, target: nat, env: seq<Round>, dryRun: bool)
    ensures Freed([]) == 0
    ensures var l := Start(c, maxBytes, target, dryRun); Reclaim(l, env) == After([], 0, Reclaim(l, env))
  {
    assert [] + Reclaim(Start(c, maxBytes, target, dryRun), env).rounds
        == Reclaim(Start(c, maxBytes, target, dryRun), env).rounds;
  }

  lemma CapReached(rounds: seq<Log>, deleted: nat, l: Loop)
    ensures After(rounds, deleted, Reclaim(l, [])) == Outcome(Cap, rounds, deleted, 0)
  {
    assert rounds + [] == rounds;
  }

  lemma StartWalk(all: seq<Snapshot>, order: seq<nat>)
    requires DistinctIds(all) && NoRepeats(order)
    ensures Walked(all, order, all, {}, 0)
  {
    var c := Candidates(all, order);
    CandidatesAfterDeletion(all, order, 0);
    FilterAll(all, {});
    assert Ids(c[..0]) == {} && c[0..] == c;
  }

  function SpaceReport(o: Outcome): Report {
    Report(0, o.deleted + (if o.exit == Planned then o.attempted else 0), Freed(o.rounds))
  }

  /** What a report of the space rule says: the planned batch of a dry run, in full
      and of nothing freed; otherwise what was deleted, and in an undisturbed run the
      usage before minus the usage after. */
  lemma ReportMeans(c: seq<Snapshot>, maxBytes: nat, target: nat, dryRun: bool, env: seq<Round>)
    requires env != []
    ensures var o := Reclaim(Start(c, maxBytes, target, dryRun), env);
            var r, free := SpaceReport(o), SatSub(maxBytes, env[0].before);
            && (dryRun && o.exit != Failed ==>
                  r == Report(0, if o.exit == Planned then BatchLen(c, target - free, 1) else 0, 0))
            && (dryRun ==> (o.exit == Planned <==>
                  !env[0].cancelled && !env[0].usageFails && !env[0].openFails && free < target && c != []))
            && (!dryRun ==> r.timeDeleted == 0 && r.spaceDeleted == o.deleted)
            && (Quiet(env, env[0].before) ==>
                  |o.rounds| <= |env| &&
                  r.bytesFreed == env[0].before - if o.rounds == [] then env[0].before else env[|o.rounds| - 1].after)
  {
    if Quiet(env, env[0].before) {
      FreedTelescopes(Start(c, maxBytes, target, dryRun), env, env[0].before);
    }
    if !dryRun {
      NeverPlanned(Start(c, maxBytes, target, dryRun), env);
    }
  }

  lemma {:induction false} NeverPlanned(l: Loop, env: seq<Round>)
    requires !l.dryRun
    ensures Reclaim(l, env).exit != Planned
    decreases |env|
  {
    if env != [] && TurnOf(l, env[0]).Go? {
      NeverPlanned(l.Advance(TurnOf(l, env[0]).log), env[1..]);
    }
  }

  /** The space rule. `env` answers each round; `lost` is what a failing delete
      call removed all the same. The call follows `Reclaim` exactly, the deleted
      snapshots are a prefix of the one list of initial candidates, and what a
      failed deletion took lies within the batch that was attempted. */
  method SpaceStep(repo: Repository, list: Lister, ghost order: seq<nat>, maxBytes: nat, target: nat,
                   env: seq<Round>, lost: set<nat>, dryRun: bool)
    returns (o: Outcome, report: Report, gone: set<nat>)
    requires |env| == MAX_SPACE_ROUNDS
    requires DistinctIds(repo.snapshots) && NoRepeats(order) && ListsAlike(list, order, repo.snapshots)
    modifies repo
    ensures var c := Candidates(old(repo.snapshots), order);
            && o == (if target == 0 then Outcome(Met, [], 0, 0)
                     else Reclaim(Start(c, maxBytes, target, dryRun), env))
            && Ended(old(repo.snapshots), order, repo.snapshots, gone, o.exit, o.deleted, o.attempted)
    ensures dryRun ==> repo.snapshots == old(repo.snapshots) && gone == {}
    ensures report == SpaceReport(o)
  {
    hide Candidates, Filter, DistinctIds, NoRepeats, Left, Walked, TurnOf, Reclaim, Freed, ListsAt, ListsAlike;
    ghost var all := repo.snapshots;
    ghost var c := Candidates(all, order);
    gone := {};
    StartWalk(all, order);
    NothingYet(c, maxBytes, target, env, dryRun);
    var minBatch: nat, empties: nat, round: nat, deleted: nat := 1, 0, 0, 0;
    var rounds: seq<Log>, freed: nat := [], 0;
    if target == 0 {
      return Outcome(Met, [], 0, 0), Report(0, 0, 0), gone;
    }
    assert env[0..] == env && c[0..] == c;
    while round < MAX_SPACE_ROUNDS
      invariant 0 <= round <= MAX_SPACE_ROUNDS
      invariant deleted <= |c| && Walked(all, order, repo.snapshots, gone, deleted)
      invariant dryRun ==> repo.snapshots == all && gone == {}
      invariant freed == Freed(rounds)
      invariant Reclaim(Start(c, maxBytes, target, dryRun), env) == After(rounds, deleted,
        Reclaim(Loop(c[deleted..], maxBytes, target, minBatch, empties, dryRun), env[round..]))
    {
      ghost var l := Loop(c[deleted..], maxBytes, target, minBatch, empties, dryRun);
      assert env[round..][0] == env[round] && env[round..][1..] == env[round + 1..];
      OneMoreRound(rounds, deleted, l, env[round..]);
      var t: Turn;
      WalkedIsListed(list, order, all, repo.snapshots, round, gone, deleted);
      t, gone := RunRound(repo, list, round, order, all, deleted, gone, maxBytes, target, minBatch, empties, dryRun,
                          env[round], lost);
      match t
      case Stop(exit, last, attempted) =>
        o := Outcome(exit, rounds, deleted + last, attempted);
        report := Report(0, o.deleted + (if exit == Planned then attempted else 0), freed);
        return;
      case Go(log) =>
        rounds, freed, deleted := rounds + [log], freed + log.freed, deleted + log.batch;
        if log.freed == 0 {
          empties := empties + 1;
          if empties >= 2 {
            return Outcome(Breaker, rounds, deleted, 0), Report(0, deleted, freed), gone;
          }
        } else {
          empties := 0;
        }
        if log.freed < log.deficit {
          minBatch := Max(Min(2 * minBatch, U64_MAX), log.batch);
        }
        assert l.Advance(log) == Loop(c[deleted..], maxBytes, target, minBatch, empties, dryRun);
        round := round + 1;
    }
    CapReached(rounds, deleted, Loop(c[deleted..], maxBytes, target, minBatch, empties, dryRun));
    assert env[round..] == [];
    o := Outcome(Cap, rounds, deleted, 0);
    report := Report(0, deleted, freed);
  }

  // ── Time rules, and a whole run ───────────────────────────────────────────

  /** Answers to the time step; a usage that cannot be read is `None`. */
  datatype TimeRound = TimeRound(cancelled: bool, openFails: bool, before: Option<nat>, deleteFails: bool,
                                 pruneFails: bool, after: Option<nat>)

  function Expired(kept: set<nat>): Snapshot -> bool { (x: Snapshot) => !x.keep && x.id !in kept }

  /** The time step ends without an error; `idle` when nothing has expired. */
  predicate TimeOk(e: TimeRound, idle: bool, dryRun: bool) {
    e.cancelled || (!e.openFails && (idle || dryRun || (!e.deleteFails && !e.pruneFails)))
  }

  /** Bytes credited to a completed time step; an unreadable usage credits none. */
  function TimeFreed(e: TimeRound): nat {
    if e.before.Some? && e.after.Some? then SatSub(e.before.value, e.after.value) else 0
  }

  /** What the time rules leave when nothing goes wrong. */
  function TimeKept(all: seq<Snapshot>, kept: set<nat>, e: TimeRound, dryRun: bool): seq<Snapshot> {
    if e.cancelled || dryRun then all else Filter(Alive(Ids(Filter(Expired(kept), all))), all)
  }

  function TimeReport(all: seq<Snapshot>, kept: set<nat>, e: TimeRound, dryRun: bool): Report {
    var n := |Filter(Expired(kept), all)|;
    if e.cancelled || n == 0 then Report(0, 0, 0) else Report(n, 0, if dryRun then 0 else TimeFreed(e))
  }

  /** Deletes what the keep rules let go (`kept` is their verdict). */
  method TimeStep(repo: Repository, kept: set<nat>, e: TimeRound, lost: set<nat>, dryRun: bool)
    returns (ok: bool, report: Report, gone: set<nat>)
    modifies repo
    ensures repo.snapshots == Filter(Alive(gone), old(repo.snapshots))
    ensures gone <= Ids(Filter(Expired(kept), old(repo.snapshots)))
    ensures ok == TimeOk(e, Filter(Expired(kept), old(repo.snapshots)) == [], dryRun)
    ensures forall x :: x in repo.snapshots ==> x in old(repo.snapshots)
    ensures DistinctIds(old(repo.snapshots)) ==>
              forall x :: x in old(repo.snapshots) && (x.keep || x.id in kept) ==> x in repo.snapshots
    ensures ok && !e.cancelled && !dryRun ==> forall x :: x in repo.snapshots ==> x.keep || x.id in kept
    ensures ok ==> repo.snapshots == TimeKept(old(repo.snapshots), kept, e, dryRun)
    ensures dryRun || e.cancelled ==> repo.snapshots == old(repo.snapshots)
    ensures ok ==> report == TimeReport(old(repo.snapshots), kept, e, dryRun)
  {
    gone, report := {}, Report(0, 0, 0);
    FilterAll(repo.snapshots, {});
    KeptSurvive(repo.snapshots, kept);
    if e.cancelled {
      return true, report, gone;
    }
    if e.openFails {
      return false, report, gone;
    }
    var doomed := SortByTime(Filter(Expired(kept), repo.snapshots));
    SortFacts(Filter(Expired(kept), repo.snapshots));
    assert Ids(doomed) == Ids(Filter(Expired(kept), repo.snapshots));
    if doomed == [] {
      assert Ids(doomed) == {};
      return true, report, gone;
    }
    if dryRun {
      return true, report.(timeDeleted := |doomed|), gone;
    }
    var before := if e.before.Some? then e.before.value else 0;
    gone := if e.deleteFails then Ids(doomed) * lost else Ids(doomed);
    repo.Delete(gone);
    if e.deleteFails {
      return false, report, gone;
    }
    report := report.(timeDeleted := |doomed|);
    if e.pruneFails {
      return false, report, gone;
    }
    var freed := SatSub(before, if e.after.Some? then e.after.value else before);
    return true, report.(bytesFreed := freed), gone;
  }

  /** Whatever part of the expired snapshots is gone, the others are there; and when
      all of it is, only they are. */
  lemma KeptSurvive(all: seq<Snapshot>, kept: set<nat>)
    ensures forall gone: set<nat>, x :: x in Filter(Alive(gone), all) ==> x in all
    ensures DistinctIds(all) ==>
              forall gone: set<nat>, x ::
                gone <= Ids(Filter(Expired(kept), all)) && x in all && (x.keep || x.id in kept) ==>
                  x in Filter(Alive(gone), all)
    ensures forall x :: x in Filter(Alive(Ids(Filter(Expired(kept), all))), all) ==> x.keep || x.id in kept
  {
    forall gone: set<nat>, x | x in Filter(Alive(gone), all)
      ensures x in all
    {
      FilterIn(Alive(gone), all, x);
    }
    if DistinctIds(all) {
      forall gone: set<nat>, x | gone <= Ids(Filter(Expired(kept), all)) && x in all && (x.keep || x.id in kept)
        ensures x in Filter(Alive(gone), all)
      {
        KeptSurvives(all, kept, gone, x);
      }
    }
    var expired := Ids(Filter(Expired(kept), all));
    forall x | x in Filter(Alive(expired), all)
      ensures x.keep || x.id in kept
    {
      FilterIn(Alive(expired), all, x);
      FilterIn(Expired(kept), all, x);
    }
  }

  lemma KeptSurvives(all: seq<Snapshot>, kept: set<nat>, gone: set<nat>, x: Snapshot)
    requires DistinctIds(all) && gone <= Ids(Filter(Expired(kept), all)) && x in all && (x.keep || x.id in kept)
    ensures x in Filter(Alive(gone), all)
  {
    FilterIn(Alive(gone), all, x);
    if x.id in gone {
      var y :| y in Filter(Expired(kept), all) && y.id == x.id;
      FilterIn(Expired(kept), all, y);
      SameId(all, x, y);
    }
  }

  lemma EndedKeeps(all: seq<Snapshot>, order: seq<nat>, now: seq<Snapshot>, gone: set<nat>,
                   exit: Exit, d: nat, a: nat, x: Snapshot)
    requires DistinctIds(all) && NoRepeats(order) && Ended(all, order, now, gone, exit, d, a)
    requires x in all && (x.keep || IsNewest(all, x))
    ensures x in now
  {
    var c := Candidates(all, order);
    var n := if exit == Failed && a > 0 then d + a else d;
    assert gone <= Ids(c) by {
      forall id | id in gone
        ensures id in Ids(c)
      {
        var y :| y in c[..n] && y.id == id;
        assert y in c;
      }
    }
    SurvivorsOfReclaim(all, order, gone, x);
  }

  /** A run: the time rules if it is a full one that has any, then the space
      rule on what they left (`mid`), with the outcome `o`. No snapshot protected
      from deletion is ever lost, and a run of the space rule alone also leaves
      every group its newest. */
  method Run(repo: Repository, list: Lister, ghost order: seq<nat>, full: bool, kept: Option<set<nat>>, e: TimeRound,
             maxBytes: Option<nat>, target: nat, env: seq<Round>, lost: set<nat>, dryRun: bool)
    returns (ok: bool, report: Report, ghost mid: seq<Snapshot>, ghost o: Outcome, ghost gone: set<nat>)
    requires |env| == MAX_SPACE_ROUNDS
    requires DistinctIds(repo.snapshots) && NoRepeats(order) && ListsAlike(list, order, repo.snapshots)
    modifies repo
    ensures var timed := full && kept.Some?;
            var all := old(repo.snapshots);
            var timeOk := timed ==> TimeOk(e, Filter(Expired(kept.value), all) == [], dryRun);
            && (timeOk ==> mid == if timed then TimeKept(all, kept.value, e, dryRun) else all)
            && ok == (timeOk && (maxBytes.Some? ==> o.exit != Failed))
            && (timeOk && maxBytes.Some? ==>
                  && o == (if target == 0 then Outcome(Met, [], 0, 0)
                           else Reclaim(Start(Candidates(mid, order), maxBytes.value, target, dryRun), env))
                  && Ended(mid, order, repo.snapshots, gone, o.exit, o.deleted, o.attempted))
            && (timeOk && maxBytes.None? ==> repo.snapshots == mid && o == Outcome(Met, [], 0, 0))
            && (ok ==>
                  var t, s := if timed then TimeReport(all, kept.value, e, dryRun) else Report(0, 0, 0), SpaceReport(o);
                  report == Report(t.timeDeleted, s.spaceDeleted, t.bytesFreed + s.bytesFreed))
    ensures forall x :: x in old(repo.snapshots) && x.keep ==> x in repo.snapshots
    ensures full && kept.Some? ==>
              forall x :: x in old(repo.snapshots) && (x.keep || x.id in kept.value) ==> x in mid
    ensures full && kept.Some? && ok && !e.cancelled && !dryRun ==>
              forall x :: x in mid ==> x in old(repo.snapshots) && (x.keep || x.id in kept.value)
    ensures !full || kept.None? ==>
              forall x :: x in old(repo.snapshots) && IsNewest(old(repo.snapshots), x) ==> x in repo.snapshots
    ensures dryRun ==> repo.snapshots == old(repo.snapshots)
  {
    hide Candidates, Filter, DistinctIds, NoRepeats, Ended, Reclaim, TimeOk, TimeKept, IsNewest, ListsAlike;
    ghost var all := repo.snapshots;
    ok, report := true, Report(0, 0, 0);
    gone, o := {}, Outcome(Met, [], 0, 0);
    if full && kept.Some? {
      var expired: set<nat>;
      ok, report, expired := TimeStep(repo, kept.value, e, lost, dryRun);
      FilterDistinct(Alive(expired), all);
      ListsAlikeLater(list, order, all, expired);
    }
    mid := repo.snapshots;
    if ok && maxBytes.Some? {
      var outcome, spaceReport, dead := SpaceStep(repo, list, order, maxBytes.value, target, env, lost, dryRun);
      o, gone := outcome, dead;
      forall x | x in mid && (x.keep || IsNewest(mid, x))
        ensures x in repo.snapshots
      {
        EndedKeeps(mid, order, repo.snapshots, gone, o.exit, o.deleted, o.attempted, x);
      }
      ok := outcome.exit != Failed;
      report := Report(report.timeDeleted, spaceReport.spaceDeleted, report.bytesFreed + spaceReport.bytesFreed);
    }
  }
}
