/** The space rule: delete the oldest candidates in growing batches and prune,
    until enough of the quota is free. */
module SpaceReclaim {
  import opened Prelude
  import opened Fifo

  const MAX_SPACE_ROUNDS: nat := 64
  const MAX_RESERVE_DIVISOR: nat := 2

  /** Bytes to keep free; the cast to `u64` truncates. */
  function TargetFree(maxBytes: nat, reserveBytes: nat, reservePercent: nat): nat {
    var byPercent := (maxBytes * reservePercent / 100) % (U64_MAX + 1);
    Min(Max(reserveBytes, byPercent), maxBytes / MAX_RESERVE_DIVISOR)
  }

  /** Free space is enough exactly when it is half of the quota, or covers both the
      reserve in bytes and the percentage; and a policy never asks for more than half. */
  lemma TargetFacts(maxBytes: nat, reserveBytes: nat, reservePercent: nat, free: nat)
    requires maxBytes <= U64_MAX
    ensures 2 * TargetFree(maxBytes, reserveBytes, reservePercent) <= maxBytes
    ensures reservePercent <= 100 ==>
              (free >= TargetFree(maxBytes, reserveBytes, reservePercent)
               <==> 2 * free + 1 >= maxBytes || (free >= reserveBytes && 100 * free + 99 >= maxBytes * reservePercent))
  {
    if reservePercent <= 100 {
      assert maxBytes * reservePercent <= maxBytes * 100;
      var p := maxBytes * reservePercent;
      assert p / 100 <= maxBytes * 100 / 100 == maxBytes;
      assert free >= p / 100 <==> 100 * free + 99 >= p;
      assert free >= maxBytes / 2 <==> 2 * free + 1 >= maxBytes;
    }
  }

  /** For a percentage over a hundred, which no valid policy has, the 64 low bits of its
      share take the place of the share. */
  lemma TargetWraps(maxBytes: nat, reserveBytes: nat, reservePercent: nat, free: nat, high: nat, low: nat)
    requires maxBytes * reservePercent / 100 == high * 0x1_0000_0000_0000_0000 + low && low < 0x1_0000_0000_0000_0000
    ensures free >= TargetFree(maxBytes, reserveBytes, reservePercent)
            <==> 2 * free + 1 >= maxBytes || (free >= reserveBytes && free >= low)
  {
    assert (high * (U64_MAX + 1) + low) % (U64_MAX + 1) == low;
    assert free >= maxBytes / 2 <==> 2 * free + 1 >= maxBytes;
  }

  // ── One batch ─────────────────────────────────────────────────────────────

  function Added(s: seq<Snapshot>): nat {
    if s == [] then 0 else Added(s[..|s| - 1]) + s[|s| - 1].added
  }

  /** The batch covers the deficit, by estimate, and has the minimum length. */
  predicate Enough(batch: seq<Snapshot>, deficit: nat, minBatch: nat) {
    Min(Added(batch), U64_MAX) >= deficit && |batch| >= minBatch
  }

  /** Length of the shortest non-empty prefix that is enough, or of everything. */
  function BatchFrom(c: seq<Snapshot>, k: nat, deficit: nat, minBatch: nat): (n: nat)
    requires k <= |c|
    ensures k <= n <= |c|
    decreases |c| - k
  {
    if k == |c| then k
    else if Enough(c[..k + 1], deficit, minBatch) then k + 1
    else BatchFrom(c, k + 1, deficit, minBatch)
  }

  function BatchLen(c: seq<Snapshot>, deficit: nat, minBatch: nat): (n: nat)
    ensures n <= |c|
  {
    BatchFrom(c, 0, deficit, minBatch)
  }

  lemma {:induction false} BatchFromFacts(c: seq<Snapshot>, k: nat, deficit: nat, minBatch: nat, j: nat)
    requires k <= |c|
    ensures var n := BatchFrom(c, k, deficit, minBatch);
            && (n == |c| || (n > k && Enough(c[..n], deficit, minBatch)))
            && (k < j < n ==> !Enough(c[..j], deficit, minBatch))
            && (k < |c| ==> k < n)
    decreases |c| - k
  {
    if k < |c| && !Enough(c[..k + 1], deficit, minBatch) {
      BatchFromFacts(c, k + 1, deficit, minBatch, j);
    }
  }

  /** The batch is enough unless it is everything, and nothing shorter is. */
  lemma BatchIsShortest(c: seq<Snapshot>, deficit: nat, minBatch: nat, j: nat)
    ensures var n := BatchLen(c, deficit, minBatch);
            && (n == |c| || (n > 0 && Enough(c[..n], deficit, minBatch)))
            && (0 < j < n ==> !Enough(c[..j], deficit, minBatch))
            && (c != [] ==> n > 0)
  {
    BatchFromFacts(c, 0, deficit, minBatch, j);
  }

  /** The same in bytes and lengths. */
  lemma BatchInBytes(c: seq<Snapshot>, deficit: nat, minBatch: nat, j: nat)
    requires deficit <= U64_MAX
    ensures var n := BatchLen(c, deficit, minBatch);
            && (n == |c| || (Added(c[..n]) >= deficit && n >= minBatch))
            && (0 < j < n ==> Added(c[..j]) < deficit || j < minBatch)
  {
    BatchIsShortest(c, deficit, minBatch, j);
  }

  lemma BatchLongEnough(c: seq<Snapshot>, deficit: nat, minBatch: nat)
    ensures BatchLen(c, deficit, minBatch) == |c| || BatchLen(c, deficit, minBatch) >= minBatch
  {
    BatchIsShortest(c, deficit, minBatch, 0);
  }

  lemma {:induction false} AddedPrefix(c: seq<Snapshot>, k: nat)
    requires k < |c|
    ensures Added(c[..k + 1]) == Added(c[..k]) + c[k].added
  {
    assert c[..k + 1][..k] == c[..k];
  }

  method TakeBatch(candidates: seq<Snapshot>, deficit: nat, minBatch: nat) returns (batch: seq<Snapshot>)
    ensures batch == candidates[..BatchLen(candidates, deficit, minBatch)]
  {
    batch := [];
    var estimate := 0;
    for k := 0 to |candidates|
      invariant batch == candidates[..k] && estimate == Min(Added(batch), U64_MAX)
      invariant BatchLen(candidates, deficit, minBatch) == BatchFrom(candidates, k, deficit, minBatch)
    {
      AddedPrefix(candidates, k);
      estimate := SatAdd(estimate, candidates[k].added);
      batch := batch + [candidates[k]];
      assert batch == candidates[..k + 1];
      if estimate >= deficit && |batch| >= minBatch {
        return;
      }
    }
  }

  // ── The rounds ────────────────────────────────────────────────────────────

  /** What the outside world answers in one round: the usage read before and
      after the prune, and where the round is cut short. */
  datatype Round = Round(cancelled: bool, usageFails: bool, before: nat, openFails: bool,
                         deleteFails: bool, pruneFails: bool, after: nat)

  datatype Exit = Met | Exhausted | Breaker | Cancelled | Planned | Cap | Failed

  datatype Log = Log(batch: nat, deficit: nat, freed: nat)

  /** `deleted` snapshots are gone; a failed deletion was `attempted` on the
      next ones. In a dry run `attempted` is what would have been deleted. */
  datatype Outcome = Outcome(exit: Exit, rounds: seq<Log>, deleted: nat, attempted: nat)

  /** State of the loop over the candidates `c` still in the repository. */
  datatype Loop = Loop(c: seq<Snapshot>, maxBytes: nat, target: nat, minBatch: nat, empties: nat, dryRun: bool)
  {
    function Free(e: Round): nat { SatSub(maxBytes, e.before) }

    /** The loop after a round that deleted, pruned and was logged. */
    function Advance(log: Log): Loop
      requires log.batch <= |c|
    {
      this.(c := c[log.batch..],
            minBatch := if log.freed < log.deficit then Max(Min(2 * minBatch, U64_MAX), log.batch) else minBatch,
            empties := if log.freed == 0 then empties + 1 else 0)
    }

    /** What a round that deletes and prunes undisturbed writes to the log. */
    function Entry(e: Round): (log: Log)
      requires Free(e) < target
      ensures log.batch <= |c|
    {
      var deficit := target - Free(e);
      Log(BatchLen(c, deficit, minBatch), deficit, SatSub(e.before, e.after))
    }
  }

  function After(rounds: seq<Log>, deleted: nat, o: Outcome): Outcome {
    Outcome(o.exit, rounds + o.rounds, deleted + o.deleted, o.attempted)
  }

  /** One round up to the second reading of the usage: it ends the run, or it
      deletes a batch and prunes. */
  datatype Turn = Stop(exit: Exit, deleted: nat, attempted: nat) | Go(log: Log)

  function TurnOf(l: Loop, e: Round): (t: Turn)
    ensures t.Stop? ==> t.deleted + t.attempted <= |l.c|
    ensures t.Go? ==> t.log.batch <= |l.c|
  {
    if e.cancelled then Stop(Cancelled, 0, 0)
    else if e.usageFails then Stop(Failed, 0, 0)
    else if l.Free(e) >= l.target then Stop(Met, 0, 0)
    else if e.openFails then Stop(Failed, 0, 0)
    else if l.c == [] then Stop(Exhausted, 0, 0)
    else if l.dryRun then Stop(Planned, 0, l.Entry(e).batch)
    else if e.deleteFails then Stop(Failed, 0, l.Entry(e).batch)
    else if e.pruneFails then Stop(Failed, l.Entry(e).batch, 0)
    else Go(l.Entry(e))
  }

  /** Control flow of the loop against the answers of the outside world. */
  function Reclaim(l: Loop, env: seq<Round>): (o: Outcome)
    ensures o.deleted + o.attempted <= |l.c|
    decreases |env|
  {
    if env == [] then Outcome(Cap, [], 0, 0)
    else
      match TurnOf(l, env[0])
      case Stop(exit, deleted, attempted) => Outcome(exit, [], deleted, attempted)
      case Go(log) =>
        if log.freed == 0 && l.empties + 1 >= 2 then Outcome(Breaker, [log], log.batch, 0)
        else After([log], log.batch, Reclaim(l.Advance(log), env[1..]))
  }

  /** How the first logged round relates to the rest of the run. */
  lemma FirstRound(l: Loop, env: seq<Round>)
    requires Reclaim(l, env).rounds != []
    ensures env != [] && l.c != [] && !l.dryRun && l.Free(env[0]) < l.target
    ensures var o, log := Reclaim(l, env), l.Entry(env[0]);
            && o.rounds[0] == log
            && (if log.freed == 0 && l.empties >= 1
                then o == Outcome(Breaker, [log], log.batch, 0)
                else o == After([log], log.batch, Reclaim(l.Advance(log), env[1..]))
                     && o.rounds[1..] == Reclaim(l.Advance(log), env[1..]).rounds)
  {
  }

  function Freed(rounds: seq<Log>): nat {
    if rounds == [] then 0 else rounds[0].freed + Freed(rounds[1..])
  }

  function Batches(rounds: seq<Log>): nat {
    if rounds == [] then 0 else rounds[0].batch + Batches(rounds[1..])
  }

  // ── What the rounds guarantee ─────────────────────────────────────────────

  /** Nobody else writes and prune never raises the usage. */
  predicate Quiet(env: seq<Round>, used: nat) {
    env == [] || (env[0].before == used && env[0].after <= used && Quiet(env[1..], env[0].after))
  }

  function Pow2(n: nat): nat { if n == 0 then 1 else 2 * Pow2(n - 1) }

  /** floor(log2 n). */
  function Log2(n: nat): nat
    requires n > 0
  {
    if n == 1 then 0 else 1 + Log2(n / 2)
  }

  lemma {:induction false} Log2Bounds(n: nat, k: nat)
    requires n > 0
    ensures Pow2(k) <= n <==> k <= Log2(n)
  {
    if k > 0 && n > 1 {
      Log2Bounds(n / 2, k - 1);
    } else if k > 0 {
      Pow2Positive(k - 1);
    }
  }

  lemma {:induction false} Pow2Positive(k: nat)
    ensures Pow2(k) >= 1
  {
    if k > 0 { Pow2Positive(k - 1); }
  }

  /** In an undisturbed run every round but the last deletes at least the minimum
      batch and leaves something behind; and it misses its deficit, unless it began
      above the quota and gave back at least the target. */
  lemma ShortRound(l: Loop, env: seq<Round>, used: nat)
    requires Quiet(env, used) && |Reclaim(l, env).rounds| > 1
    ensures var log := Reclaim(l, env).rounds[0];
            && |env| >= 2 && log == l.Entry(env[0])
            && l.minBatch <= log.batch < |l.c|
            && (log.freed < log.deficit || (used > l.maxBytes && used - env[0].after >= l.target))
            && Reclaim(l.Advance(log), env[1..]).rounds == Reclaim(l, env).rounds[1..]
  {
    hide Reclaim, TurnOf, BatchLen;
    TwoRounds(l, env);
    QuietStart(env, used);
    var log := l.Entry(env[0]);
    MissedDeficit(l, env[0], env[1], used);
    BatchLongEnough(l.c, log.deficit, l.minBatch);
  }

  lemma QuietStart(env: seq<Round>, used: nat)
    requires Quiet(env, used) && |env| >= 2
    ensures env[0].before == used && env[0].after <= used && env[1].before == env[0].after
  {
    assert env[1..][0] == env[1];
  }

  /** A run with a second round stands before that one as the first left it. */
  lemma TwoRounds(l: Loop, env: seq<Round>)
    requires |Reclaim(l, env).rounds| > 1
    ensures |env| >= 2 && l.Free(env[0]) < l.target
    ensures var log, next := l.Entry(env[0]), l.Advance(l.Entry(env[0]));
            && Reclaim(l, env).rounds[0] == log && next.Free(env[1]) < next.target && next.c != []
            && Reclaim(next, env[1..]).rounds == Reclaim(l, env).rounds[1..]
  {
    hide Reclaim, BatchLen;
    FirstRound(l, env);
    FirstRound(l.Advance(l.Entry(env[0])), env[1..]);
  }

  /** Why a round is followed by another deletion. */
  lemma MissedDeficit(l: Loop, e: Round, next: Round, used: nat)
    requires l.Free(e) < l.target && e.before == used && e.after <= used && next.before == e.after
    requires l.Advance(l.Entry(e)).Free(next) < l.target && l.Advance(l.Entry(e)).c != []
    ensures l.Entry(e).batch < |l.c|
    ensures l.Entry(e).freed < l.Entry(e).deficit || (used > l.maxBytes && used - e.after >= l.target)
  {
    hide BatchLen;
  }

  /** The least number of candidates that k rounds use up when the minimum
      batch starts at m: m, 2m, 4m, ... and one for the last round. */
  function Cost(m: nat, k: nat): nat
    decreases k
  {
    if k <= 1 then k else m + Cost(2 * m, k - 1)
  }

  /** Doubling m over n rounds stays within the machine word. */
  predicate DoublesFit(m: nat, n: nat)
    decreases n
  {
    n <= 1 || (2 * m <= U64_MAX && DoublesFit(2 * m, n - 1))
  }

  lemma DoublesFitLess(m: nat, n: nat)
    requires n > 0 && DoublesFit(m, n)
    ensures DoublesFit(m, n - 1)
    decreases n
  {
    if n > 2 {
      DoublesFitLess(2 * m, n - 1);
    }
  }

  /** Of the rounds, at most x can have met their deficit, if x targets bring the
      usage down to the quota; the others cost candidates. */
  lemma {:induction false} RoundsCost(l: Loop, env: seq<Round>, used: nat, m: nat, x: nat)
    requires Quiet(env, used) && used <= l.maxBytes + x * l.target
    requires m <= l.minBatch && DoublesFit(m, |env|)
    ensures var k := |Reclaim(l, env).rounds|; k <= x || |l.c| >= Cost(m, k - x)
    decreases |env|
  {
    hide Reclaim, BatchLen;
    var o := Reclaim(l, env);
    if |o.rounds| > 1 {
      ShortRound(l, env, used);
      QuietStart(env, used);
      DoublesFitLess(m, |env|);
      var log := l.Entry(env[0]);
      if log.freed < log.deficit {
        RoundsCost(l.Advance(log), env[1..], env[0].after, 2 * m, x);
      } else {
        OneTargetLess(used, env[0].after, l.maxBytes, l.target, x);
        RoundsCost(l.Advance(log), env[1..], env[0].after, m, x - 1);
      }
    } else if |o.rounds| == 1 {
      FirstRound(l, env);
    }
  }

  lemma OneTargetLess(used: nat, after: nat, max: nat, target: nat, x: nat)
    requires max < used <= max + x * target && after + target <= used
    ensures x > 0 && after <= max + (x - 1) * target
  {
    assert x == 0 ==> x * target == 0;
    assert (x - 1) * target == x * target - target;
  }

  lemma Doubled(m: nat, p: nat)
    requires p >= 1
    ensures m + (2 * m * (p - 1) + 1) == m * (2 * p - 1) + 1
  {
    assert 2 * m * (p - 1) == m * (2 * (p - 1));
    assert m * (2 * p - 1) == m * (2 * (p - 1)) + m;
  }

  lemma {:induction false} CostIsGeometric(m: nat, k: nat)
    requires k >= 1
    ensures Cost(m, k) == m * (Pow2(k - 1) - 1) + 1
    decreases k
  {
    if k > 1 {
      CostIsGeometric(2 * m, k - 1);
      Pow2Positive(k - 2);
      Doubled(m, Pow2(k - 2));
    }
  }

  lemma {:induction false} Pow2Grows(a: nat, b: nat)
    requires a <= b
    ensures Pow2(a) <= Pow2(b)
    decreases b
  {
    if a < b { Pow2Grows(a, b - 1); }
  }

  lemma {:induction false} WordsFit(i: nat, n: nat)
    requires 1 <= n && i + n <= 64
    ensures DoublesFit(Pow2(i), n)
    decreases n
  {
    if n > 1 {
      Pow2Grows(i + 1, 63);
      Pow2Of63();
      WordsFit(i + 1, n - 1);
    }
  }

  lemma Pow2Of63()
    ensures Pow2(63) == 0x8000_0000_0000_0000
  {
    assert Pow2(8) == 0x100 && Pow2(7) == 0x80;
    Pow2Sum(8, 8);
    Pow2Sum(16, 16);
    Pow2Sum(32, 16);
    Pow2Sum(48, 8);
    Pow2Sum(56, 7);
  }

  lemma {:induction false} Pow2Sum(a: nat, b: nat)
    ensures Pow2(a + b) == Pow2(a) * Pow2(b)
  {
    if b > 0 {
      Pow2Sum(a, b - 1);
      assert Pow2(a + b) == 2 * Pow2(a + (b - 1));
    }
  }

  lemma {:induction false} CapRunsEveryRound(l: Loop, env: seq<Round>)
    ensures var o := Reclaim(l, env);
            |o.rounds| <= |env| && (o.exit == Cap ==> |o.rounds| == |env|)
    decreases |env|
  {
    if Reclaim(l, env).rounds != [] {
      FirstRound(l, env);
      CapRunsEveryRound(l.Advance(l.Entry(env[0])), env[1..]);
    }
  }

  /** The loop as `space_step` enters it. */
  function Start(c: seq<Snapshot>, maxBytes: nat, target: nat, dryRun: bool): Loop {
    Loop(c, maxBytes, target, 1, 0, dryRun)
  }

  /** How many targets bring the usage down to the quota. */
  function Targets(used: nat, maxBytes: nat, target: nat): nat {
    if target == 0 then 0 else (SatSub(used, maxBytes) + target - 1) / target
  }

  lemma TargetsSuffice(used: nat, maxBytes: nat, target: nat)
    ensures target > 0 ==> used <= maxBytes + Targets(used, maxBytes, target) * target
    ensures used <= maxBytes ==> Targets(used, maxBytes, target) == 0
  {
    if target > 0 {
      var over := SatSub(used, maxBytes) + target - 1;
      assert over == over / target * target + over % target;
      assert (target - 1) / target == 0;
    }
  }

  lemma NoTargetNoRounds(l: Loop, env: seq<Round>)
    requires l.target == 0
    ensures Reclaim(l, env).rounds == []
  {
    if Reclaim(l, env).rounds != [] {
      FirstRound(l, env);
    }
  }

  /** Undisturbed, with n candidates: at most floor(log2 n) + 1 rounds of deletion
      and pruning, and one more for every target by which the usage starts above the
      quota; the round limit is out of reach below 2^63 candidates, halved for each
      of those. */
  lemma LogarithmicReclaim(c: seq<Snapshot>, env: seq<Round>, maxBytes: nat, target: nat, dryRun: bool)
    requires |env| == MAX_SPACE_ROUNDS && Quiet(env, env[0].before)
    ensures var o, x := Reclaim(Start(c, maxBytes, target, dryRun), env), Targets(env[0].before, maxBytes, target);
            && (c == [] ==> o.rounds == [])
            && (c != [] ==> |o.rounds| <= x + Log2(|c|) + 1)
            && (o.exit == Cap ==> x >= 64 || |c| >= Pow2(63 - x))
            && (env[0].before <= maxBytes ==> x == 0)
  {
    var l := Start(c, maxBytes, target, dryRun);
    var k, x := |Reclaim(l, env).rounds|, Targets(env[0].before, maxBytes, target);
    hide Reclaim, Targets, Log2, Cost, Pow2, Quiet, DoublesFit;
    WordsFit(0, 64);
    TargetsSuffice(env[0].before, maxBytes, target);
    CapRunsEveryRound(l, env);
    if target == 0 {
      NoTargetNoRounds(l, env);
    } else {
      RoundsCost(l, env, env[0].before, 1, x);
      if k > x {
        CostFromOne(k - x, |c|);
      }
    }
    if c == [] && k > 0 {
      FirstRound(l, env);
    }
  }

  lemma CostFromOne(k: nat, n: nat)
    requires k >= 1 && n >= Cost(1, k)
    ensures n > 0 && k <= Log2(n) + 1 && n >= Pow2(k - 1)
  {
    CostIsGeometric(1, k);
    Pow2Positive(k - 1);
    Log2Bounds(n, k - 1);
  }

  /** Started at or below the quota: the round limit takes 2^63 candidates. */
  lemma CapNeedsManyCandidates(c: seq<Snapshot>, env: seq<Round>, maxBytes: nat, target: nat, dryRun: bool)
    requires |env| == MAX_SPACE_ROUNDS && Quiet(env, env[0].before) && env[0].before <= maxBytes
    requires Reclaim(Start(c, maxBytes, target, dryRun), env).exit == Cap
    ensures |c| >= 0x8000_0000_0000_0000
  {
    LogarithmicReclaim(c, env, maxBytes, target, dryRun);
    Pow2Of63();
  }

  // ── The bound is attained ─────────────────────────────────────────────────

  /** A prune that gives back one byte. */
  function Stingy(used: nat): Round
    requires used > 0
  {
    Round(false, false, used, false, false, false, used - 1)
  }

  function StingyEnv(used: nat, n: nat): (env: seq<Round>)
    requires used >= n
    ensures |env| == n
    decreases n
  {
    if n == 0 then [] else [Stingy(used)] + StingyEnv(used - 1, n - 1)
  }

  lemma {:induction false} StingyIsQuiet(used: nat, n: nat)
    requires used >= n
    ensures Quiet(StingyEnv(used, n), used)
    decreases n
  {
    if n > 0 {
      StingyIsQuiet(used - 1, n - 1);
      assert StingyEnv(used, n)[1..] == StingyEnv(used - 1, n - 1);
    }
  }

  /** Snapshots that each claim to have added everything: every batch is then
      exactly the minimum batch. */
  lemma BigBatch(c: seq<Snapshot>, deficit: nat, minBatch: nat)
    requires deficit <= U64_MAX && minBatch >= 1
    requires forall x :: x in c ==> x.added == U64_MAX
    ensures BatchLen(c, deficit, minBatch) == Min(minBatch, |c|)
  {
    var b, n := Min(minBatch, |c|), BatchLen(c, deficit, minBatch);
    BatchIsShortest(c, deficit, minBatch, b);
    BigPrefix(c, b);
    BigPrefix(c, n);
  }

  lemma BigPrefix(c: seq<Snapshot>, j: nat)
    requires j <= |c| && forall x :: x in c ==> x.added == U64_MAX
    ensures j >= 1 ==> Added(c[..j]) >= U64_MAX
  {
    if j >= 1 {
      assert c[..j][j - 1] == c[j - 1] && c[j - 1] in c;
    }
  }

  function StingyCount(l: Loop, used: nat, n: nat): nat
    requires used >= n
  {
    |Reclaim(l, StingyEnv(used, n)).rounds|
  }

  lemma StingyFirst(l: Loop, used: nat, n: nat)
    requires forall x :: x in l.c ==> x.added == U64_MAX
    requires 1 <= n <= used <= l.maxBytes && l.maxBytes - used + n < l.target <= U64_MAX
    requires l.minBatch >= 1 && l.empties == 0 && !l.dryRun && l.c != []
    ensures var log := l.Entry(Stingy(used));
            && log.batch == Min(l.minBatch, |l.c|) && log.freed == 1 < log.deficit
            && StingyCount(l, used, n) == 1 + StingyCount(l.Advance(log), used - 1, n - 1)
  {
    var env, log := StingyEnv(used, n), l.Entry(Stingy(used));
    assert env[0] == Stingy(used) && env[1..] == StingyEnv(used - 1, n - 1);
    BigBatch(l.c, log.deficit, l.minBatch);
  }

  lemma StingyNext(l: Loop, log: Log, k: nat)
    requires forall x :: x in l.c ==> x.added == U64_MAX
    requires k > 1 && l.minBatch >= 1 && DoublesFit(l.minBatch, k) && |l.c| >= Cost(l.minBatch, k)
    requires log.batch == Min(l.minBatch, |l.c|) && log.freed == 1 < log.deficit
    ensures var next := l.Advance(log);
            && next.minBatch == 2 * l.minBatch && next.empties == 0
            && |next.c| >= Cost(next.minBatch, k - 1)
            && forall x :: x in next.c ==> x.added == U64_MAX
  {
    assert forall x :: x in l.c[log.batch..] ==> x in l.c;
  }

  lemma {:induction false} StingyRounds(l: Loop, used: nat, n: nat, k: nat)
    requires forall x :: x in l.c ==> x.added == U64_MAX
    requires n <= used <= l.maxBytes && l.maxBytes - used + n < l.target <= U64_MAX
    requires l.minBatch >= 1 && l.empties == 0 && !l.dryRun
    requires DoublesFit(l.minBatch, k) && k <= n && |l.c| >= Cost(l.minBatch, k)
    ensures StingyCount(l, used, n) >= k
    decreases k
  {
    hide StingyCount, BatchLen;
    if k > 0 {
      StingyFirst(l, used, n);
      if k > 1 {
        var next := l.Advance(l.Entry(Stingy(used)));
        StingyNext(l, l.Entry(Stingy(used)), k);
        StingyRounds(next, used - 1, n - 1, k - 1);
      }
    }
  }

  lemma {:induction false} FullLogExits(l: Loop, env: seq<Round>)
    ensures |Reclaim(l, env).rounds| == |env| ==> Reclaim(l, env).exit in {Cap, Breaker}
    decreases |env|
  {
    if Reclaim(l, env).rounds != [] {
      FirstRound(l, env);
      FullLogExits(l.Advance(l.Entry(env[0])), env[1..]);
    }
  }

  lemma {:induction false} StingyAt(used: nat, n: nat, i: nat)
    requires i < n <= used
    ensures StingyEnv(used, n)[i] == Stingy(used - i)
    decreases n
  {
    if i > 0 {
      StingyAt(used - 1, n - 1, i - 1);
    }
  }

  /** Against a stingy prune a run that uses up all its rounds ends at the limit. */
  lemma StingyEndsAtCap(l: Loop, used: nat, n: nat)
    requires 0 < n <= used && l.empties == 0 && l.minBatch <= U64_MAX && |l.c| <= U64_MAX
    requires |Reclaim(l, StingyEnv(used, n)).rounds| == n
    ensures Reclaim(l, StingyEnv(used, n)).exit == Cap
  {
    hide Reclaim;
    var env := StingyEnv(used, n);
    FullLogExits(l, env);
    StingyAt(used, n, n - 1);
    var at := RoundsWalkTheList(l, env, n - 1);
    if Reclaim(l, env).exit == Breaker {
      BreakerMeansTwoEmptyRounds(l, env);
    }
  }

  /** For every k up to the round limit there are 2^(k-1) candidates on which an
      undisturbed reclaim needs k rounds; so with 2^63 of them the round limit
      itself is reached. */
  lemma BoundIsAttained(c: seq<Snapshot>, k: nat)
    requires 1 <= k <= MAX_SPACE_ROUNDS && |c| == Pow2(k - 1)
    requires forall x :: x in c ==> x.added == U64_MAX
    ensures var env := StingyEnv(1000, MAX_SPACE_ROUNDS);
            && Quiet(env, 1000)
            && |Reclaim(Start(c, 1000, 500, false), env).rounds| == k == Log2(|c|) + 1
            && (k == MAX_SPACE_ROUNDS ==> Reclaim(Start(c, 1000, 500, false), env).exit == Cap)
  {
    var env := StingyEnv(1000, MAX_SPACE_ROUNDS);
    StingyIsQuiet(1000, MAX_SPACE_ROUNDS);
    WordsFit(0, k);
    CostIsGeometric(1, k);
    StingyRounds(Start(c, 1000, 500, false), 1000, MAX_SPACE_ROUNDS, k);
    LogarithmicReclaim(c, env, 1000, 500, false);
    Pow2Positive(k - 1);
    Log2Bounds(|c|, k - 1);
    Log2Bounds(|c|, k);
    assert Pow2(k) == 2 * Pow2(k - 1);
    if k == MAX_SPACE_ROUNDS {
      Pow2Of63();
      hide Reclaim;
      StingyEndsAtCap(Start(c, 1000, 500, false), 1000, MAX_SPACE_ROUNDS);
    }
  }

  // ── Accounting and exits ──────────────────────────────────────────────────

  /** The bytes credited over the rounds add up to the usage before minus the
      usage after. */
  lemma {:induction false} FreedTelescopes(l: Loop, env: seq<Round>, used: nat)
    requires Quiet(env, used)
    ensures var rounds := Reclaim(l, env).rounds;
            && |rounds| <= |env|
            && Freed(rounds) == used - if rounds == [] then used else env[|rounds| - 1].after
    decreases |env|
  {
    var rounds := Reclaim(l, env).rounds;
    if rounds != [] {
      FirstRound(l, env);
      if |rounds| > 1 {
        FreedTelescopes(l.Advance(rounds[0]), env[1..], env[0].after);
      }
    }
  }

  /** Nothing stood in the way of the round, and space was wanted. */
  predicate Undisturbed(l: Loop, e: Round) {
    && !e.cancelled && !e.usageFails && !e.openFails && !e.deleteFails && !e.pruneFails
    && SatSub(l.maxBytes, e.before) < l.target && !l.dryRun
  }

  /** Why the round after the logged ones ended the run. */
  predicate Explains(exit: Exit, l: Loop, e: Round, left: nat) {
    var enough := SatSub(l.maxBytes, e.before) >= l.target;
    match exit
    case Cancelled => e.cancelled
    case Met => !e.cancelled && !e.usageFails && enough
    case Exhausted => !e.cancelled && !e.usageFails && !enough && !e.openFails && left == 0
    case Planned => !e.cancelled && !e.usageFails && !enough && !e.openFails && left > 0 && l.dryRun
    case Failed =>
      !e.cancelled && (e.usageFails || (!enough && (e.openFails || (left > 0 && !l.dryRun && (e.deleteFails || e.pruneFails)))))
    case _ => false
  }

  lemma StopMeans(l: Loop, e: Round)
    ensures var t := TurnOf(l, e);
            t.Stop? ==>
              && t.exit !in {Cap, Breaker} && Explains(t.exit, l, e, |l.c|)
              && (t.exit in {Cancelled, Met, Exhausted, Planned} ==> t.deleted == 0)
  {
  }

  lemma SameReasons(l: Loop, log: Log)
    requires log.batch <= |l.c|
    ensures forall exit, e, left :: Explains(exit, l.Advance(log), e, left) == Explains(exit, l, e, left)
  {
  }

  lemma {:induction false} LoggedRounds(l: Loop, env: seq<Round>)
    ensures var rounds := Reclaim(l, env).rounds;
            && |rounds| <= |env| && Batches(rounds) <= |l.c|
            && forall j :: 0 <= j < |rounds| ==> Undisturbed(l, env[j])
    decreases |env|
  {
    if env != [] && TurnOf(l, env[0]).Go? {
      var log := TurnOf(l, env[0]).log;
      if !(log.freed == 0 && l.empties + 1 >= 2) {
        LoggedRounds(l.Advance(log), env[1..]);
        assert ([log] + Reclaim(l.Advance(log), env[1..]).rounds)[1..] == Reclaim(l.Advance(log), env[1..]).rounds;
      } else {
        assert [log][1..] == [];
      }
    }
  }

  /** Every logged round was undisturbed and short of space. A run ends at the round
      limit, with the breaker, or in a further round, for what that round answered. */
  lemma {:induction false} ExitMeans(l: Loop, env: seq<Round>)
    ensures var o := Reclaim(l, env);
            var n, left := |o.rounds|, |l.c| - Batches(o.rounds);
            && n <= |env| && left >= 0
            && (forall j :: 0 <= j < n ==> Undisturbed(l, env[j]))
            && (o.exit == Cap ==> n == |env| && o.deleted == Batches(o.rounds))
            && (o.exit == Breaker ==> n > 0 && o.deleted == Batches(o.rounds))
            && (o.exit !in {Cap, Breaker} ==> n < |env| && Explains(o.exit, l, env[n], left))
            && (o.exit in {Cancelled, Met, Exhausted, Planned} ==> o.deleted == Batches(o.rounds))
    decreases |env|
  {
    LoggedRounds(l, env);
    hide Undisturbed, BatchLen, Explains, TurnOf;
    if env != [] && TurnOf(l, env[0]).Stop? {
      StopMeans(l, env[0]);
    } else if env != [] {
      var log := TurnOf(l, env[0]).log;
      if !(log.freed == 0 && l.empties + 1 >= 2) {
        ExitMeans(l.Advance(log), env[1..]);
        SameReasons(l, log);
        assert ([log] + Reclaim(l.Advance(log), env[1..]).rounds)[1..] == Reclaim(l.Advance(log), env[1..]).rounds;
      } else {
        assert [log][1..] == [];
      }
    }
  }

  /** What a logged round says: how much was missing, the batch taken for it from the
      candidates the rounds before left, and what pruning gave back. */
  lemma RoundMeans(l: Loop, env: seq<Round>, j: nat) returns (m: nat)
    requires j < |Reclaim(l, env).rounds| && l.minBatch <= U64_MAX && |l.c| <= U64_MAX
    ensures var rounds := Reclaim(l, env).rounds;
            && j < |env| && Batches(rounds[..j]) < |l.c| && m >= l.minBatch
            && rounds[j].deficit == l.target - SatSub(l.maxBytes, env[j].before)
            && rounds[j].freed == SatSub(env[j].before, env[j].after)
            && rounds[j].batch == BatchLen(l.c[Batches(rounds[..j])..], rounds[j].deficit, m)
  {
    hide Reclaim, BatchLen, Batches;
    var at := RoundsWalkTheList(l, env, j);
    EntryMeans(at, env[j]);
    m := at.minBatch;
  }

  lemma EntryMeans(l: Loop, e: Round)
    requires l.Free(e) < l.target
    ensures l.Entry(e).deficit == l.target - SatSub(l.maxBytes, e.before)
    ensures l.Entry(e).freed == SatSub(e.before, e.after)
    ensures l.Entry(e).batch == BatchLen(l.c, l.Entry(e).deficit, l.minBatch)
  {
  }

  /** The breaker means that the last two rounds freed nothing. */
  lemma {:induction false} BreakerMeansTwoEmptyRounds(l: Loop, env: seq<Round>)
    requires l.empties <= 1 && Reclaim(l, env).exit == Breaker
    ensures var rounds := Reclaim(l, env).rounds;
            && rounds != [] && rounds[|rounds| - 1].freed == 0
            && (if |rounds| >= 2 then rounds[|rounds| - 2].freed == 0 else l.empties == 1)
    decreases |env|
  {
    FirstRound(l, env);
    var log := l.Entry(env[0]);
    if !(log.freed == 0 && l.empties >= 1) {
      BreakerMeansTwoEmptyRounds(l.Advance(log), env[1..]);
    }
  }

  /** Two rounds in a row that free nothing are the last ones. */
  lemma {:induction false} EmptyRoundsStop(l: Loop, env: seq<Round>, i: nat)
    requires l.empties <= 1
    requires var rounds := Reclaim(l, env).rounds;
             i + 1 < |rounds| && rounds[i].freed == 0 && rounds[i + 1].freed == 0
    ensures i + 2 == |Reclaim(l, env).rounds| && Reclaim(l, env).exit == Breaker
    decreases |env|
  {
    FirstRound(l, env);
    var next := l.Advance(l.Entry(env[0]));
    if i > 0 {
      EmptyRoundsStop(next, env[1..], i - 1);
    } else {
      FirstRound(next, env[1..]);
    }
  }

  /** Round j is what the loop writes when it stands before the candidates that
      the first j batches left, with a minimum batch that never shrank. */
  lemma {:induction false} RoundsWalkTheList(l: Loop, env: seq<Round>, j: nat) returns (at: Loop)
    requires j < |Reclaim(l, env).rounds| && l.minBatch <= U64_MAX && |l.c| <= U64_MAX
    ensures var rounds := Reclaim(l, env).rounds;
            && j < |env| && Batches(rounds[..j]) < |l.c|
            && at.c == l.c[Batches(rounds[..j])..] && at.Free(env[j]) < at.target
            && rounds[j] == at.Entry(env[j])
            && at.maxBytes == l.maxBytes && at.target == l.target && at.minBatch >= l.minBatch
    decreases |env|
  {
    hide Reclaim, TurnOf, BatchLen;
    FirstRound(l, env);
    if j == 0 {
      at := l;
    } else {
      var rounds, log := Reclaim(l, env).rounds, l.Entry(env[0]);
      var next := l.Advance(log);
      at := RoundsWalkTheList(next, env[1..], j - 1);
      assert rounds[..j][1..] == rounds[1..][..j - 1];
      var from := Batches(rounds[1..][..j - 1]);
      assert l.c[log.batch..][from..] == l.c[log.batch + from..];
      assert env[1..][j - 1] == env[j];
    }
  }
}
