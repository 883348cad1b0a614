/** Acceptance of a configuration: identifiers, usernames and point names are
    checked, and point names made unique within their namespace. */
module Naming {
  import opened Prelude

  /** The 32 hexadecimal digits of an identifier, without hyphens. */
  type Id = s: string | |s| == 32 && forall c <- s :: '0' <= c <= '9' || 'a' <= c <= 'f'
    witness "00000000000000000000000000000000"

  const NIL: Id := "00000000000000000000000000000000"

  datatype Point = Point(id: Id, name: string, isRepo: bool, password: Option<string>)

  datatype User = User(username: string, points: seq<Point>)

  /** Data points and repositories are named separately. */
  type Names = set<(bool, string)>

  datatype Problem =
    NilId | DuplicateId | BadUsername | DuplicateUsername
    | EmptyName | MissingPassword | EmptyPassword | IllegalName

  // ── Decimal numerals ──────────────────────────────────────────────────────

  function Decimal(n: nat): (s: string)
    ensures s != ""
  {
    if n < 10 then [('0' as int + n) as char] else Decimal(n / 10) + [('0' as int + n % 10) as char]
  }

  function Value(s: string): int {
    if s == "" then 0 else 10 * Value(s[..|s| - 1]) + (s[|s| - 1] as int - '0' as int)
  }

  lemma {:induction false} ValueOfDecimal(n: nat)
    ensures Value(Decimal(n)) == n
  {
    var s := Decimal(n);
    if n < 10 {
      assert s[..|s| - 1] == "";
    } else {
      ValueOfDecimal(n / 10);
      assert s[..|s| - 1] == Decimal(n / 10);
    }
  }

  // ── Candidate names ───────────────────────────────────────────────────────

  const PREFIXES: seq<nat> := [8, 12, 16, 20, 24, 32]

  /** The names tried for a point, in order: its own, with ever more of its
      identifier, then with a number from 2 on. */
  function Candidate(p: Point, k: nat): string {
    if k == 0 then p.name
    else if k <= 6 then p.name + "-" + p.id[..PREFIXES[k - 1]]
    else p.name + "-" + p.id + "-" + Decimal(k - 5)
  }

  lemma CandidatesDiffer(p: Point, j: nat, k: nat)
    requires Candidate(p, j) == Candidate(p, k)
    ensures j == k
  {
    if j > 6 && k > 6 {
      var n := |p.name + "-" + p.id + "-"|;
      assert Candidate(p, j)[n..] == Decimal(j - 5) && Candidate(p, k)[n..] == Decimal(k - 5);
      ValueOfDecimal(j - 5);
      ValueOfDecimal(k - 5);
    } else {
      assert |Candidate(p, j)| == |Candidate(p, k)|;
    }
  }

  function Tried(p: Point, n: nat): (r: Names)
    ensures forall c :: c in r <==> exists j :: 0 <= j < n && c == (p.isRepo, Candidate(p, j))
  {
    set j | 0 <= j < n :: (p.isRepo, Candidate(p, j))
  }

  lemma {:induction false} TriedCount(p: Point, n: nat)
    ensures |Tried(p, n)| == n
  {
    if n == 0 {
      assert Tried(p, 0) == {};
    } else {
      hide Tried;
      TriedCount(p, n - 1);
      TriedStep(p, n - 1);
    }
  }

  lemma TriedStep(p: Point, n: nat)
    ensures (p.isRepo, Candidate(p, n)) !in Tried(p, n)
    ensures Tried(p, n + 1) == Tried(p, n) + {(p.isRepo, Candidate(p, n))}
  {
    hide Candidate;
    forall j | 0 <= j < n
      ensures Candidate(p, n) != Candidate(p, j)
    {
      if Candidate(p, n) == Candidate(p, j) {
        CandidatesDiffer(p, n, j);
      }
    }
    hide Tried;
  }

  lemma {:induction false} SubsetCount<T>(a: set<T>, b: set<T>)
    requires a <= b
    ensures |a| <= |b|
  {
    if a != {} {
      var x :| x in a;
      SubsetCount(a - {x}, b - {x});
    }
  }

  /** Pigeonhole: taken names can only block as many candidates as there are. */
  lemma BlockedCandidates(p: Point, names: Names, n: nat)
    requires forall j :: 0 <= j < n ==> (p.isRepo, Candidate(p, j)) in names
    ensures n <= |names|
  {
    assert Tried(p, n) <= names;
    TriedCount(p, n);
    SubsetCount(Tried(p, n), names);
  }

  ghost predicate Blocked(p: Point, names: Names, n: nat) {
    forall j :: 0 <= j < n ==> (p.isRepo, Candidate(p, j)) in names
  }

  /** `chosen` is the first candidate that is still free. */
  ghost predicate FirstFree(p: Point, names: Names, chosen: string) {
    (p.isRepo, chosen) !in names && exists k :: IsCandidate(p, k, chosen) && Blocked(p, names, k)
  }

  ghost predicate IsCandidate(p: Point, k: nat, chosen: string) { chosen == Candidate(p, k) }

  lemma FirstFreeIsUnique(p: Point, names: Names, a: string, b: string)
    requires FirstFree(p, names, a) && FirstFree(p, names, b)
    ensures a == b
  {
    var j :| IsCandidate(p, j, a) && Blocked(p, names, j);
    var k :| IsCandidate(p, k, b) && Blocked(p, names, k);
    assert j == k;
  }

  /** The search ends, within as many steps as names are taken, plus one. */
  method AssignName(p: Point, names: Names) returns (chosen: string)
    ensures FirstFree(p, names, chosen)
    ensures exists k: nat :: IsCandidate(p, k, chosen) && k <= |names|
  {
    var k := 0;
    chosen := p.name;
    assert IsCandidate(p, 0, chosen);
    if (p.isRepo, chosen) !in names {
      return;
    }
    k := 1;
    while k <= 6
      invariant 1 <= k <= 7 && Blocked(p, names, k)
    {
      BlockedCandidates(p, names, k);
      chosen := p.name + "-" + p.id[..PREFIXES[k - 1]];
      assert IsCandidate(p, k, chosen);
      if (p.isRepo, chosen) !in names {
        return;
      }
      k := k + 1;
    }
    var suffix := 2;
    while true
      invariant suffix >= 2 && Blocked(p, names, suffix + 5)
      decreases |names| - suffix
    {
      BlockedCandidates(p, names, suffix + 5);
      chosen := p.name + "-" + p.id + "-" + Decimal(suffix);
      assert IsCandidate(p, suffix + 5, chosen);
      if (p.isRepo, chosen) !in names {
        return;
      }
      suffix := suffix + 1;
    }
  }

  // ── Renaming the points of one user ───────────────────────────────────────

  function Taken(points: seq<Point>): (r: Names)
    ensures forall c :: c in r <==> exists i :: 0 <= i < |points| && c == (points[i].isRepo, points[i].name)
  {
    set i | 0 <= i < |points| :: (points[i].isRepo, points[i].name)
  }

  /** Every point gets the first name that no point before it ended up with, and
      nothing else changes. */
  ghost predicate Renamed(before: seq<Point>, after: seq<Point>) {
    && |after| == |before|
    && forall i :: 0 <= i < |before| ==> RenamedAt(before, after, i)
  }

  ghost predicate RenamedAt(before: seq<Point>, after: seq<Point>, i: nat)
    requires i < |after| == |before|
  {
    && after[i] == before[i].(name := after[i].name)
    && FirstFree(before[i], Taken(after[..i]), after[i].name)
  }

  lemma {:induction false} RenamedIsUnique(before: seq<Point>, a: seq<Point>, b: seq<Point>)
    requires Renamed(before, a) && Renamed(before, b)
    ensures a == b
  {
    if before != [] {
      var n := |before| - 1;
      forall i | 0 <= i < n
        ensures RenamedAt(before[..n], a[..n], i) && RenamedAt(before[..n], b[..n], i)
      {
        assert RenamedAt(before, a, i) && RenamedAt(before, b, i);
        assert a[..n][..i] == a[..i] && b[..n][..i] == b[..i];
      }
      RenamedIsUnique(before[..n], a[..n], b[..n]);
      assert RenamedAt(before, a, n) && RenamedAt(before, b, n);
      FirstFreeIsUnique(before[n], Taken(a[..n]), a[n].name, b[n].name);
      assert a == a[..n] + [a[n]] && b == b[..n] + [b[n]];
    }
  }

  /** No two points of one kind share a name. */
  ghost predicate UniqueNames(points: seq<Point>) {
    forall i, j :: 0 <= i < j < |points| && points[i].isRepo == points[j].isRepo ==> points[i].name != points[j].name
  }

  lemma RenamingIsInjective(before: seq<Point>, after: seq<Point>)
    requires Renamed(before, after)
    ensures UniqueNames(after)
  {
    forall i, j | 0 <= i < j < |after| && after[i].isRepo == after[j].isRepo
      ensures after[i].name != after[j].name
    {
      assert RenamedAt(before, after, j);
      assert after[..j][i] == after[i];
    }
  }

  /** A point keeps its name exactly when no point before it ended up with it. */
  lemma KeepsNameIff(before: seq<Point>, after: seq<Point>, i: nat)
    requires Renamed(before, after) && i < |before|
    ensures after[i].name == before[i].name
            <==> forall j :: 0 <= j < i && after[j].isRepo == before[i].isRepo ==> after[j].name != before[i].name
  {
    assert RenamedAt(before, after, i);
    var p, names := before[i], Taken(after[..i]);
    assert IsCandidate(p, 0, p.name) && Blocked(p, names, 0);
    if (p.isRepo, p.name) !in names {
      assert FirstFree(p, names, p.name);
      FirstFreeIsUnique(p, names, p.name, after[i].name);
      forall j | 0 <= j < i && after[j].isRepo == p.isRepo
        ensures after[j].name != p.name
      {
        assert after[..j + 1][j] == after[..i][j] == after[j];
      }
    }
  }

  /** Names that are unique already stay, so a second pass changes nothing. */
  lemma RenamingIsIdempotent(points: seq<Point>, after: seq<Point>)
    requires UniqueNames(points)
    ensures Renamed(points, after) <==> after == points
  {
    forall i | 0 <= i < |points|
      ensures RenamedAt(points, points, i)
    {
      var p := points[i];
      assert IsCandidate(p, 0, p.name) && Blocked(p, Taken(points[..i]), 0);
    }
    if Renamed(points, after) {
      RenamedIsUnique(points, points, after);
    }
  }

  /** The first holder of a name can lose it to an earlier point that was renamed
      to exactly that. */
  lemma FirstHolderCanLoseItsName(a: Id, b: Id, c: Id)
    ensures var before := [Point(a, "x", false, None), Point(b, "x", false, None),
                           Point(c, "x-" + b[..8], false, None)];
            var after := [before[0], before[1].(name := "x-" + b[..8]),
                          before[2].(name := "x-" + b[..8] + "-" + c[..8])];
            Renamed(before, after) && after[2].name != before[2].name
  {
    var before := [Point(a, "x", false, None), Point(b, "x", false, None), Point(c, "x-" + b[..8], false, None)];
    var after := [before[0], before[1].(name := "x-" + b[..8]), before[2].(name := "x-" + b[..8] + "-" + c[..8])];
    assert Taken(after[..0]) == {};
    assert Taken(after[..1]) == {(false, "x")} by { assert after[..1] == [after[0]]; }
    assert Taken(after[..2]) == {(false, "x"), (false, "x-" + b[..8])} by {
      assert after[..2] == [after[0], after[1]];
    }
    assert IsCandidate(before[0], 0, "x") && Blocked(before[0], {}, 0);
    assert "x" + "-" + b[..8] == "x-" + b[..8];
    assert IsCandidate(before[1], 1, after[1].name) && |after[1].name| == 10;
    assert IsCandidate(before[2], 1, after[2].name) && |after[2].name| == 19;
    assert RenamedAt(before, after, 0) && RenamedAt(before, after, 1) && RenamedAt(before, after, 2);
  }

  // ── Which first holders keep their names ──────────────────────────────────

  /** No point of its kind before it has the same name. */
  predicate FirstHolder(points: seq<Point>, i: nat)
    requires i < |points|
  {
    forall j :: 0 <= j < i ==> points[j].isRepo != points[i].isRepo || points[j].name != points[i].name
  }

  /** Point j repeats an earlier name, and the name of the later first holder i is
      the first candidate of j that no earlier point has as its given name. */
  ghost predicate Threatens(points: seq<Point>, j: nat, i: nat)
    requires j < i < |points|
  {
    && points[j].isRepo == points[i].isRepo && !FirstHolder(points, j) && FirstHolder(points, i)
    && exists k :: IsCandidate(points[j], k, points[i].name) && Blocked(points[j], Taken(points[..j]), k)
  }

  ghost predicate Threatened(points: seq<Point>) {
    exists j, i :: 0 <= j < i < |points| && Threatens(points, j, i)
  }

  ghost predicate FirstHoldersKeep(before: seq<Point>, after: seq<Point>)
    requires |after| == |before|
  {
    forall i :: 0 <= i < |before| && FirstHolder(before, i) ==> after[i].name == before[i].name
  }

  /** Points of one kind with one name differ in the first eight digits of their
      identifiers, and there are not more than ten million points. */
  ghost predicate Distinguished(points: seq<Point>) {
    && |points| <= 10_000_000
    && forall i, j ::
         0 <= i < j < |points| && points[i].isRepo == points[j].isRepo && points[i].name == points[j].name ==>
           points[i].id[..8] != points[j].id[..8]
  }

  lemma {:induction false} EarliestHolder(points: seq<Point>, n: nat, kind: bool, name: string) returns (i: nat)
    requires n <= |points| && (kind, name) in Taken(points[..n])
    ensures i < n && points[i].isRepo == kind && points[i].name == name && FirstHolder(points, i)
  {
    i :| 0 <= i < n && (kind, name) == (points[..n][i].isRepo, points[..n][i].name);
    if !FirstHolder(points, i) {
      var j :| 0 <= j < i && points[j].isRepo == kind && points[j].name == name;
      assert points[..i][j] == points[j];
      i := EarliestHolder(points, i, kind, name);
    }
  }

  lemma TakenAt(points: seq<Point>, n: nat, i: nat)
    requires i < n <= |points|
    ensures (points[i].isRepo, points[i].name) in Taken(points[..n])
  {
    assert points[..n][i] == points[i];
  }

  lemma SameKinds(before: seq<Point>, after: seq<Point>, i: nat)
    requires Renamed(before, after) && i < |before|
    ensures after[i].isRepo == before[i].isRepo
    ensures FirstFree(before[i], Taken(after[..i]), after[i].name)
  {
    assert RenamedAt(before, after, i);
  }

  /** If every first holder before j keeps its name, the given names before j are
      all among the names in use there. */
  lemma GivenNamesInUse(before: seq<Point>, after: seq<Point>, j: nat)
    requires Renamed(before, after) && j <= |before|
    requires forall i :: 0 <= i < j && FirstHolder(before, i) ==> after[i].name == before[i].name
    ensures Taken(before[..j]) <= Taken(after[..j])
  {
    forall c | c in Taken(before[..j])
      ensures c in Taken(after[..j])
    {
      var i := EarliestHolder(before, j, c.0, c.1);
      SameKinds(before, after, i);
      TakenAt(after, j, i);
    }
  }

  /** A threat always costs some first holder its name. */
  lemma ThreatenedLoses(before: seq<Point>, after: seq<Point>)
    requires Renamed(before, after) && Threatened(before)
    ensures !FirstHoldersKeep(before, after)
  {
    if FirstHoldersKeep(before, after) {
      var j, i :| 0 <= j < i < |before| && Threatens(before, j, i);
      var k: nat :| IsCandidate(before[j], k, before[i].name) && Blocked(before[j], Taken(before[..j]), k);
      var name := before[i].name;
      GivenNamesInUse(before, after, j);
      SameKinds(before, after, j);
      if (before[j].isRepo, name) in Taken(after[..j]) {
        var h :| 0 <= h < j && (before[j].isRepo, name) == (after[..j][h].isRepo, after[..j][h].name);
        LosesTo(before, after, i, h);
      } else {
        assert FirstFree(before[j], Taken(after[..j]), name);
        FirstFreeIsUnique(before[j], Taken(after[..j]), name, after[j].name);
        LosesTo(before, after, i, j);
      }
    }
  }

  lemma LosesTo(before: seq<Point>, after: seq<Point>, i: nat, h: nat)
    requires Renamed(before, after) && h < i < |before|
    requires after[h].isRepo == before[i].isRepo && after[h].name == before[i].name
    ensures after[i].name != before[i].name
  {
    KeepsNameIff(before, after, i);
  }

  lemma AfterLastDash(x: string, u: string, y: string, v: string)
    requires x + "-" + u == y + "-" + v && '-' !in u && '-' !in v
    ensures x == y && u == v
  {
    var s := x + "-" + u;
    assert s[|x|] == '-' && s[|y|] == '-';
    assert forall i :: |x| < i < |s| ==> s[i] == u[i - |x| - 1];
    assert forall i :: |y| < i < |s| ==> s[i] == v[i - |y| - 1];
    assert |x| == |y|;
    assert s[..|x|] == x && s[..|y|] == y && s[|x| + 1..] == u && s[|y| + 1..] == v;
  }

  function Pow10(d: nat): nat { if d == 0 then 1 else 10 * Pow10(d - 1) }

  lemma {:induction false} DecimalIsShort(n: nat, d: nat)
    requires n < Pow10(d) && d > 0
    ensures |Decimal(n)| <= d
  {
    if n >= 10 {
      DecimalIsShort(n / 10, d - 1);
    }
  }

  lemma Seven(k: nat)
    requires 6 < k <= 10_000_000
    ensures |Decimal(k - 5)| <= 7 && '-' !in Decimal(k - 5)
  {
    assert Pow10(3) == 1000 && Pow10(4) == 10 * Pow10(3) && Pow10(5) == 10 * Pow10(4);
    assert Pow10(6) == 10 * Pow10(5) && Pow10(7) == 10 * Pow10(6);
    DecimalIsShort(k - 5, 7);
    DecimalDigits(k - 5);
  }

  lemma NoDash(id: Id)
    ensures '-' !in id
  {
  }

  /** Two points can have a new candidate in common only if they have their name
      and the first eight digits in common. */
  lemma CommonCandidate(p: Point, j: nat, q: Point, k: nat)
    requires 0 < j <= 10_000_000 && 0 < k <= 10_000_000 && Candidate(p, j) == Candidate(q, k)
    ensures p.name == q.name && p.id[..8] == q.id[..8]
  {
    NoDash(p.id);
    NoDash(q.id);
    if j > 6 { Seven(j); }
    if k > 6 { Seven(k); }
    var x, y := if j <= 6 then p.name else p.name + "-" + p.id, if k <= 6 then q.name else q.name + "-" + q.id;
    var u := if j <= 6 then p.id[..PREFIXES[j - 1]] else Decimal(j - 5);
    var v := if k <= 6 then q.id[..PREFIXES[k - 1]] else Decimal(k - 5);
    AfterLastDash(x, u, y, v);
    if j <= 6 && k <= 6 {
      assert u[..8] == p.id[..8] && v[..8] == q.id[..8];
    } else {
      AfterLastDash(p.name, p.id, q.name, q.id);
    }
  }

  lemma {:induction false} TakenCount(points: seq<Point>)
    ensures |Taken(points)| <= |points|
  {
    if points != [] {
      var n := |points| - 1;
      TakenCount(points[..n]);
      var last := (points[n].isRepo, points[n].name);
      assert Taken(points) == Taken(points[..n]) + {last} by {
        forall c | c in Taken(points[..n]) + {last}
          ensures c in Taken(points)
        {
          if c in Taken(points[..n]) {
            var i :| 0 <= i < n && c == (points[..n][i].isRepo, points[..n][i].name);
            assert c == (points[i].isRepo, points[i].name);
          }
        }
        forall c | c in Taken(points)
          ensures c in Taken(points[..n]) + {last}
        {
          var i :| 0 <= i < |points| && c == (points[i].isRepo, points[i].name);
          if i < n {
            TakenAt(points, n, i);
          }
        }
      }
    } else {
      assert Taken(points) == {};
    }
  }

  /** No point but j itself ends up with a new candidate of j. */
  lemma NotShared(before: seq<Point>, after: seq<Point>, j: nat, m: nat, h: nat)
    requires Renamed(before, after) && Distinguished(before) && h < j < |before| && 0 < m <= |before|
    requires before[h].isRepo == before[j].isRepo && after[h].name != before[h].name
    ensures after[h].name != Candidate(before[j], m)
  {
    SameKinds(before, after, h);
    var k: nat :| IsCandidate(before[h], k, after[h].name) && Blocked(before[h], Taken(after[..h]), k);
    TakenCount(after[..h]);
    BlockedCandidates(before[h], Taken(after[..h]), k);
    if after[h].name == Candidate(before[j], m) {
      CommonCandidate(before[h], k, before[j], m);
    }
  }

  /** A name that a repeating point could not take is one given before it. */
  lemma BlockedByGiven(before: seq<Point>, after: seq<Point>, j: nat, m: nat)
    requires Renamed(before, after) && Distinguished(before) && j < |before| && m <= |before|
    requires !FirstHolder(before, j)
    requires (before[j].isRepo, Candidate(before[j], m)) in Taken(after[..j])
    ensures (before[j].isRepo, Candidate(before[j], m)) in Taken(before[..j])
  {
    hide Candidate, Distinguished, FirstFree;
    if m == 0 {
      assert Candidate(before[j], 0) == before[j].name by { OwnName(before[j]); }
      var h :| 0 <= h < j && !(before[h].isRepo != before[j].isRepo || before[h].name != before[j].name);
      TakenAt(before, j, h);
    } else {
      var h :| 0 <= h < j && (before[j].isRepo, Candidate(before[j], m)) == (after[..j][h].isRepo, after[..j][h].name);
      SameKinds(before, after, h);
      if after[h].name == before[h].name {
        TakenAt(before, j, h);
      } else {
        NotShared(before, after, j, m, h);
      }
    }
  }

  lemma OwnName(p: Point)
    ensures Candidate(p, 0) == p.name
  {
  }

  /** The candidates a repeating point was refused are all names given before it. */
  lemma TakesFirstNotGiven(before: seq<Point>, after: seq<Point>, j: nat) returns (k: nat)
    requires Renamed(before, after) && Distinguished(before) && j < |before| && !FirstHolder(before, j)
    ensures IsCandidate(before[j], k, after[j].name) && Blocked(before[j], Taken(before[..j]), k)
  {
    hide Candidate, Distinguished, FirstHolder;
    SameKinds(before, after, j);
    k :| IsCandidate(before[j], k, after[j].name) && Blocked(before[j], Taken(after[..j]), k);
    TakenCount(after[..j]);
    BlockedCandidates(before[j], Taken(after[..j]), k);
    forall m | 0 <= m < k
      ensures (before[j].isRepo, Candidate(before[j], m)) in Taken(before[..j])
    {
      BlockedByGiven(before, after, j, m);
    }
  }

  lemma {:induction false} EarliestLoser(before: seq<Point>, after: seq<Point>, n: nat) returns (i: nat)
    requires |after| == |before| && n < |before| && FirstHolder(before, n) && after[n].name != before[n].name
    ensures i < |before| && FirstHolder(before, i) && after[i].name != before[i].name
    ensures forall h :: 0 <= h < i && FirstHolder(before, h) ==> after[h].name == before[h].name
  {
    i := n;
    if !(forall h :: 0 <= h < n && FirstHolder(before, h) ==> after[h].name == before[h].name) {
      var h :| 0 <= h < n && FirstHolder(before, h) && after[h].name != before[h].name;
      i := EarliestLoser(before, after, h);
    }
  }

  /** Where identifiers tell repeating points apart, every first holder of a name
      keeps it exactly when no later first holder's name is what an earlier
      repeating point will be called; this can be read off the input. */
  lemma FirstHoldersKeepIff(before: seq<Point>, after: seq<Point>)
    requires Renamed(before, after) && Distinguished(before)
    ensures FirstHoldersKeep(before, after) <==> !Threatened(before)
  {
    if Threatened(before) {
      ThreatenedLoses(before, after);
    }
    if !FirstHoldersKeep(before, after) {
      var n :| 0 <= n < |before| && FirstHolder(before, n) && after[n].name != before[n].name;
      var i := EarliestLoser(before, after, n);
      LoserIsThreatened(before, after, i);
    }
  }

  lemma LoserIsThreatened(before: seq<Point>, after: seq<Point>, i: nat)
    requires Renamed(before, after) && Distinguished(before) && i < |before|
    requires FirstHolder(before, i) && after[i].name != before[i].name
    requires forall h :: 0 <= h < i && FirstHolder(before, h) ==> after[h].name == before[h].name
    ensures Threatened(before)
  {
    hide Distinguished, FirstHolder, FirstFree, Blocked;
    KeepsNameIff(before, after, i);
    var j :| 0 <= j < i && after[j].isRepo == before[i].isRepo && after[j].name == before[i].name;
    SameKinds(before, after, j);
    NotBothFirst(before, j, i);
    var k := TakesFirstNotGiven(before, after, j);
    assert Threatens(before, j, i);
  }

  /** Without any condition on the identifiers: names that no earlier repeating
      point could be given are kept. */
  lemma UnmatchedNamesStay(before: seq<Point>, after: seq<Point>)
    requires Renamed(before, after)
    requires forall j, i, k: nat ::
               0 <= j < i < |before| && before[j].isRepo == before[i].isRepo
               && !FirstHolder(before, j) && FirstHolder(before, i) && k > 0 ==>
                 !IsCandidate(before[j], k, before[i].name)
    ensures FirstHoldersKeep(before, after)
  {
    hide FirstHolder, FirstFree, Blocked;
    if !FirstHoldersKeep(before, after) {
      var n :| 0 <= n < |before| && FirstHolder(before, n) && after[n].name != before[n].name;
      var i := EarliestLoser(before, after, n);
      TakenByRepeat(before, after, i);
    }
  }

  lemma TakenByRepeat(before: seq<Point>, after: seq<Point>, i: nat)
    requires Renamed(before, after) && i < |before| && FirstHolder(before, i) && after[i].name != before[i].name
    requires forall h :: 0 <= h < i && FirstHolder(before, h) ==> after[h].name == before[h].name
    ensures exists j, k: nat :: 0 <= j < i && before[j].isRepo == before[i].isRepo && !FirstHolder(before, j)
                                && k > 0 && IsCandidate(before[j], k, before[i].name)
  {
    hide FirstHolder;
    KeepsNameIff(before, after, i);
    var j :| 0 <= j < i && after[j].isRepo == before[i].isRepo && after[j].name == before[i].name;
    SameKinds(before, after, j);
    NotBothFirst(before, j, i);
    var k: nat :| IsCandidate(before[j], k, after[j].name) && Blocked(before[j], Taken(after[..j]), k);
    OwnName(before[j]);
    assert k > 0;
  }

  lemma NotBothFirst(points: seq<Point>, j: nat, i: nat)
    requires j < i < |points| && FirstHolder(points, i)
    ensures points[j].isRepo != points[i].isRepo || points[j].name != points[i].name
  {
  }

  // ── Checks ────────────────────────────────────────────────────────────────

  predicate Control(c: char) { c < ' ' || '\U{7f}' <= c <= '\U{9f}' }

  predicate Unsafe(s: string) { s == "." || s == ".." || exists c <- s :: c == '/' || c == '\\' || Control(c) }

  function PointProblem(p: Point): Option<Problem> {
    if p.name == "" then Some(EmptyName)
    else if p.isRepo && p.password.None? then Some(MissingPassword)
    else if p.isRepo && p.password.value == "" then Some(EmptyPassword)
    else if Unsafe(p.name) then Some(IllegalName)
    else None
  }

  /** No separator and no control character, and not a dot or two. */
  predicate Plain(s: string) {
    s != "." && s != ".." && forall c <- s :: c != '/' && c != '\\' && 32 <= c as int && !(127 <= c as int < 160)
  }

  lemma UnsafeIff(s: string)
    ensures Unsafe(s) <==> !Plain(s)
  {
  }

  /** A point is legal exactly with a non-empty plain name and, for a repository, a
      non-empty password. */
  lemma LegalPointIff(p: Point)
    ensures PointProblem(p).None? <==>
              p.name != "" && Plain(p.name) && (p.isRepo ==> p.password.Some? && p.password.value != "")
  {
    UnsafeIff(p.name);
  }

  /** What is reported of a point that is not: the name's absence first, then what is
      wrong with the password, then the name's characters. */
  lemma PointProblemIs(p: Point)
    ensures var r := PointProblem(p);
            var weak := p.isRepo && (p.password.None? || p.password.value == "");
            && (r == Some(EmptyName) <==> p.name == "")
            && (r == Some(MissingPassword) <==> p.name != "" && p.isRepo && p.password.None?)
            && (r == Some(EmptyPassword) <==> p.name != "" && p.isRepo && p.password == Some(""))
            && (r == Some(IllegalName) <==> p.name != "" && !weak && !Plain(p.name))
  {
    UnsafeIff(p.name);
  }

  /** The candidates after the name itself: with 8, 12, 16, 20, 24 and all 32 digits,
      then all of them and a number from 2 on. */
  lemma CandidatesAre(p: Point, k: nat)
    ensures var dash := p.name + "-";
            && Candidate(p, 0) == p.name && Candidate(p, 1) == dash + p.id[..8] && Candidate(p, 2) == dash + p.id[..12]
            && Candidate(p, 3) == dash + p.id[..16] && Candidate(p, 4) == dash + p.id[..20]
            && Candidate(p, 5) == dash + p.id[..24] && Candidate(p, 6) == dash + p.id
            && (k > 6 ==> Candidate(p, k) == dash + p.id + "-" + Decimal(k - 5) && Value(Decimal(k - 5)) == k - 5 >= 2)
  {
    if k > 6 {
      ValueOfDecimal(k - 5);
    }
    assert p.id[..32] == p.id;
  }

  lemma CandidateIsSafe(p: Point, k: nat)
    requires p.name != "" && !Unsafe(p.name)
    ensures Candidate(p, k) != "" && !Unsafe(Candidate(p, k))
  {
    var name := Candidate(p, k);
    if k > 6 {
      DecimalDigits(k - 5);
    }
    if k > 0 {
      assert |name| > 2;
      forall c | c in name
        ensures !(c == '/' || c == '\\' || Control(c))
      {
        assert c in p.name || c == '-' || '0' <= c <= '9' || 'a' <= c <= 'f';
      }
    }
  }

  /** The new name of an acceptable point is acceptable. */
  lemma RenamingStaysLegal(before: seq<Point>, after: seq<Point>, i: nat)
    requires Renamed(before, after) && i < |before| && PointProblem(before[i]).None?
    ensures PointProblem(after[i]).None?
  {
    assert RenamedAt(before, after, i);
    var k: nat :| IsCandidate(before[i], k, after[i].name) && Blocked(before[i], Taken(after[..i]), k);
    CandidateIsSafe(before[i], k);
  }

  lemma {:induction false} DecimalDigits(n: nat)
    ensures forall c <- Decimal(n) :: '0' <= c <= '9'
  {
    if n >= 10 {
      DecimalDigits(n / 10);
    }
  }

  function PointsProblem(points: seq<Point>): Option<Problem> {
    if points == [] then None
    else
      var earlier := PointsProblem(points[..|points| - 1]);
      if earlier.Some? then earlier else PointProblem(points[|points| - 1])
  }

  function UsersProblem(users: seq<User>): Option<Problem> {
    if users == [] then None
    else
      var n := |users| - 1;
      var earlier := UsersProblem(users[..n]);
      if earlier.Some? then earlier
      else if users[n].username == "" || Unsafe(users[n].username) then Some(BadUsername)
      else if exists i :: 0 <= i < n && users[i].username == users[n].username then Some(DuplicateUsername)
      else PointsProblem(users[n].points)
  }

  function IdsProblem(ids: seq<Id>): Option<Problem> {
    if ids == [] then None
    else
      var n := |ids| - 1;
      var earlier := IdsProblem(ids[..n]);
      if earlier.Some? then earlier
      else if ids[n] == NIL then Some(NilId)
      else if ids[n] in ids[..n] then Some(DuplicateId)
      else None
  }

  function IdsOf(points: seq<Point>): (r: seq<Id>)
    ensures |r| == |points| && forall i :: 0 <= i < |r| ==> r[i] == points[i].id
  {
    seq(|points|, i requires 0 <= i < |points| => points[i].id)
  }

  /** The identifiers of all points of all users, in order. */
  function AllIds(users: seq<User>): seq<Id> {
    if users == [] then [] else AllIds(users[..|users| - 1]) + IdsOf(users[|users| - 1].points)
  }

  /** The first thing wrong with a configuration: identifiers come first. */
  function Verdict(users: seq<User>): Option<Problem> {
    if IdsProblem(AllIds(users)).Some? then IdsProblem(AllIds(users)) else UsersProblem(users)
  }

  ghost predicate Acceptable(users: seq<User>) {
    && (forall id <- AllIds(users) :: id != NIL)
    && (forall i, j :: 0 <= i < j < |AllIds(users)| ==> AllIds(users)[i] != AllIds(users)[j])
    && (forall i :: 0 <= i < |users| ==> users[i].username != "" && !Unsafe(users[i].username))
    && (forall i, j :: 0 <= i < j < |users| ==> users[i].username != users[j].username)
    && (forall i, p :: 0 <= i < |users| && p in users[i].points ==> PointProblem(p).None?)
  }

  ghost predicate DistinctSet(ids: seq<Id>) {
    NIL !in ids && forall i, j :: 0 <= i < j < |ids| ==> ids[i] != ids[j]
  }

  lemma {:induction false} IdsProblemIff(ids: seq<Id>)
    ensures IdsProblem(ids).None? <==> DistinctSet(ids)
  {
    if ids != [] {
      var n := |ids| - 1;
      IdsProblemIff(ids[..n]);
      DistinctMore(ids[..n], ids[n]);
      assert ids == ids[..n] + [ids[n]];
      hide DistinctSet;
    }
  }

  lemma DistinctMore(ids: seq<Id>, id: Id)
    ensures DistinctSet(ids + [id]) <==> DistinctSet(ids) && id != NIL && id !in ids
  {
    var all := ids + [id];
    assert all[|ids|] == id;
    assert forall i :: 0 <= i < |ids| ==> all[i] == ids[i];
    assert id in ids <==> exists i :: 0 <= i < |ids| && all[i] == all[|ids|];
  }

  lemma {:induction false} PointsProblemIff(points: seq<Point>)
    ensures PointsProblem(points).None? <==> forall p <- points :: PointProblem(p).None?
  {
    if points != [] {
      var n := |points| - 1;
      PointsProblemIff(points[..n]);
      assert points == points[..n] + [points[n]];
    }
  }

  ghost predicate UsersAcceptable(users: seq<User>) {
    && (forall i :: 0 <= i < |users| ==> users[i].username != "" && !Unsafe(users[i].username))
    && (forall i, j :: 0 <= i < j < |users| ==> users[i].username != users[j].username)
    && (forall i :: 0 <= i < |users| ==> PointsProblem(users[i].points).None?)
  }

  lemma {:induction false} UsersProblemIff(users: seq<User>)
    ensures UsersProblem(users).None? <==> UsersAcceptable(users)
  {
    hide PointsProblem, Unsafe;
    if users != [] {
      UsersProblemIff(users[..|users| - 1]);
    }
  }

  /** A configuration is accepted exactly when nothing is wrong with it. */
  lemma AcceptedIff(users: seq<User>)
    ensures Verdict(users).None? <==> Acceptable(users)
  {
    IdsProblemIff(AllIds(users));
    UsersProblemIff(users);
    forall i | 0 <= i < |users|
      ensures PointsProblem(users[i].points).None? <==> forall p <- users[i].points :: PointProblem(p).None?
    {
      PointsProblemIff(users[i].points);
    }
  }

  // ── The operation ─────────────────────────────────────────────────────────

  method ValidatePointIds(users: array<User>) returns (r: Option<Problem>)
    ensures r == IdsProblem(AllIds(users[..]))
  {
    hide IdsProblem, AllIds, IdsOf;
    NoIds();
    var seen: set<Id> := {};
    ghost var ids: seq<Id> := [];
    assert users[..0] == [];
    for k := 0 to users.Length
      invariant ids == AllIds(users[..k]) && IdsProblem(ids).None? && SameMembers(seen, ids)
    {
      ghost var earlier := ids;
      var points := users[k].points;
      AllIdsStep(users[..], k);
      assert users[..][..k] == users[..k] && users[..][..k + 1] == users[..k + 1];
      for i := 0 to |points|
        invariant ids == earlier + IdsOf(points)[..i]
        invariant IdsProblem(ids).None? && SameMembers(seen, ids)
      {
        ghost var next := ids + [points[i].id];
        IdsStep(ids, points[i].id);
        assert next == earlier + IdsOf(points)[..i + 1];
        if points[i].id == NIL {
          ProblemStays(next, users[..], k, i);
          return Some(NilId);
        }
        if points[i].id in seen {
          ProblemStays(next, users[..], k, i);
          return Some(DuplicateId);
        }
        seen := seen + {points[i].id};
        ids := next;
      }
      assert IdsOf(points)[..|points|] == IdsOf(points);
    }
    assert users[..users.Length] == users[..];
    r := None;
  }

  ghost predicate SameMembers(seen: set<Id>, ids: seq<Id>) { forall id :: id in seen <==> id in ids }

  lemma NoIds()
    ensures IdsProblem([]) == None && AllIds([]) == []
  {
  }

  lemma IdsStep(ids: seq<Id>, id: Id)
    requires IdsProblem(ids).None?
    ensures IdsProblem(ids + [id]) == if id == NIL then Some(NilId) else if id in ids then Some(DuplicateId) else None
  {
    assert (ids + [id])[..|ids|] == ids;
  }

  lemma AllIdsStep(users: seq<User>, k: nat)
    requires k < |users|
    ensures AllIds(users[..k + 1]) == AllIds(users[..k]) + IdsOf(users[k].points)
  {
    assert users[..k + 1][..k] == users[..k];
  }

  lemma {:induction false} FirstProblemStays(ids: seq<Id>, n: nat)
    requires n <= |ids| && IdsProblem(ids[..n]).Some?
    ensures IdsProblem(ids) == IdsProblem(ids[..n])
  {
    if n < |ids| {
      assert ids[..|ids| - 1][..n] == ids[..n];
      FirstProblemStays(ids[..|ids| - 1], n);
    } else {
      assert ids[..n] == ids;
    }
  }

  lemma {:induction false} AllIdsGrow(users: seq<User>, k: nat)
    requires k <= |users|
    ensures AllIds(users[..k]) <= AllIds(users)
  {
    if k < |users| {
      assert users[..|users| - 1][..k] == users[..k];
      AllIdsGrow(users[..|users| - 1], k);
    } else {
      assert users[..k] == users;
    }
  }

  lemma ProblemStays(ids: seq<Id>, users: seq<User>, k: nat, i: nat)
    requires k < |users| && i < |users[k].points|
    requires ids == AllIds(users[..k]) + IdsOf(users[k].points)[..i + 1] && IdsProblem(ids).Some?
    ensures IdsProblem(AllIds(users)) == IdsProblem(ids)
  {
    assert users[..k + 1][..k] == users[..k];
    AllIdsGrow(users, k + 1);
    assert ids <= AllIds(users[..k + 1]) <= AllIds(users);
    assert AllIds(users)[..|ids|] == ids;
    FirstProblemStays(AllIds(users), |ids|);
  }

  /** Checks and renames the points of one user, in order. */
  method NormalizePoints(user: User) returns (r: Result<User, Problem>)
    ensures r.Err? <==> PointsProblem(user.points).Some?
    ensures r.Err? ==> Some(r.error) == PointsProblem(user.points)
    ensures r.Ok? ==> r.value == user.(points := r.value.points) && Renamed(user.points, r.value.points)
  {
    hide Renamed, PointsProblem, PointProblem, FirstFree, Taken;
    var points := user.points;
    var names: Names := {};
    ghost var done: seq<Point> := [];
    NoPoints();
    assert points[..0] == [];
    for i := 0 to |points|
      invariant |done| == i && |points| == |user.points| && points == done + user.points[i..]
      invariant Renamed(user.points[..i], done) && names == Taken(done)
      invariant PointsProblem(user.points[..i]).None?
    {
      var p := points[i];
      assert p == user.points[i];
      PointsStep(user.points, i);
      if PointProblem(p).Some? {
        PointsProblemStays(user.points, i + 1);
        return Err(PointProblem(p).value);
      }
      var chosen := AssignName(p, names);
      names := names + {(p.isRepo, chosen)};
      points := points[i := p.(name := chosen)];
      RenamedOneMore(user.points[..i], done, p, chosen);
      SetNext(done, user.points, i, p.(name := chosen));
      done := done + [p.(name := chosen)];
    }
    assert user.points[..|points|] == user.points && points == done;
    r := Ok(user.(points := points));
  }

  lemma SetNext(done: seq<Point>, points: seq<Point>, i: nat, p: Point)
    requires |done| == i < |points|
    ensures (done + points[i..])[i := p] == done + [p] + points[i + 1..]
    ensures points[..i + 1] == points[..i] + [points[i]]
  {
  }

  lemma NoPoints()
    ensures Taken([]) == {} && Renamed([], []) && PointsProblem([]).None?
  {
  }

  lemma PointsStep(points: seq<Point>, n: nat)
    requires n < |points| && PointsProblem(points[..n]).None?
    ensures PointsProblem(points[..n + 1]) == PointProblem(points[n])
  {
    assert points[..n + 1][..n] == points[..n];
  }

  lemma {:induction false} PointsProblemStays(points: seq<Point>, n: nat)
    requires n <= |points| && PointsProblem(points[..n]).Some?
    ensures PointsProblem(points) == PointsProblem(points[..n])
  {
    if n < |points| {
      assert points[..|points| - 1][..n] == points[..n];
      PointsProblemStays(points[..|points| - 1], n);
    } else {
      assert points[..n] == points;
    }
  }

  lemma RenamedOneMore(before: seq<Point>, after: seq<Point>, p: Point, chosen: string)
    requires Renamed(before, after) && FirstFree(p, Taken(after), chosen)
    ensures Renamed(before + [p], after + [p.(name := chosen)])
    ensures Taken(after + [p.(name := chosen)]) == Taken(after) + {(p.isRepo, chosen)}
  {
    var b, a := before + [p], after + [p.(name := chosen)];
    assert a[..|after|] == after;
    assert a[|after|] == p.(name := chosen);
    assert forall c :: c in Taken(a) <==> c in Taken(after) + {(p.isRepo, chosen)} by {
      forall c | c in Taken(after)
        ensures c in Taken(a)
      {
        var i :| 0 <= i < |after| && c == (after[i].isRepo, after[i].name);
        assert a[i] == after[i];
      }
    }
    forall i | 0 <= i < |b|
      ensures RenamedAt(b, a, i)
    {
      if i < |before| {
        assert RenamedAt(before, after, i);
        assert a[..i] == after[..i];
      }
    }
  }

  /** On success every user's points are renamed in place; on a rejection the
      caller drops the list. */
  method NormalizeVfsUsers(users: array<User>) returns (r: Option<Problem>)
    modifies users
    ensures r == Verdict(old(users[..]))
    ensures r.None? ==> forall k :: 0 <= k < users.Length ==>
              && users[k] == old(users[k]).(points := users[k].points)
              && Renamed(old(users[k]).points, users[k].points)
  {
    hide Renamed, Unsafe, PointsProblem, UsersProblem, AllIds, IdsProblem;
    ghost var before := users[..];
    NoUsers(before);
    r := ValidatePointIds(users);
    if r.Some? {
      return;
    }
    var usernames: set<string> := {};
    for k := 0 to users.Length
      invariant forall j :: k <= j < users.Length ==> users[j] == before[j]
      invariant UsersProblem(before[..k]).None?
      invariant forall name :: name in usernames <==> exists j :: 0 <= j < k && before[j].username == name
      invariant forall j :: 0 <= j < k ==>
                  && users[j] == before[j].(points := users[j].points)
                  && Renamed(before[j].points, users[j].points)
    {
      UsersStep(before, k);
      if users[k].username == "" || Unsafe(users[k].username) {
        UsersProblemStays(before, k + 1);
        return Some(BadUsername);
      }
      if users[k].username in usernames {
        UsersProblemStays(before, k + 1);
        return Some(DuplicateUsername);
      }
      usernames := usernames + {users[k].username};
      var user := NormalizePoints(users[k]);
      if user.Err? {
        UsersProblemStays(before, k + 1);
        return Some(user.error);
      }
      users[k] := user.value;
    }
    assert before[..users.Length] == before;
  }

  lemma NoUsers(users: seq<User>)
    ensures UsersProblem(users[..0]).None?
  {
  }

  lemma UsersStep(users: seq<User>, n: nat)
    requires n < |users| && UsersProblem(users[..n]).None?
    ensures UsersProblem(users[..n + 1])
            == if users[n].username == "" || Unsafe(users[n].username) then Some(BadUsername)
               else if exists i :: 0 <= i < n && users[i].username == users[n].username then Some(DuplicateUsername)
               else PointsProblem(users[n].points)
  {
    assert users[..n + 1][..n] == users[..n];
  }

  lemma {:induction false} UsersProblemStays(users: seq<User>, n: nat)
    requires n <= |users| && UsersProblem(users[..n]).Some?
    ensures UsersProblem(users) == UsersProblem(users[..n])
  {
    if n < |users| {
      assert users[..|users| - 1][..n] == users[..n];
      UsersProblemStays(users[..|users| - 1], n);
    } else {
      assert users[..n] == users;
    }
  }
}
