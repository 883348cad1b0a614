/** Which snapshots the space rule may delete, oldest first, and why asking
    again after every prune keeps deleting one and the same list. */
module Fifo {

  /** `keep` is the outcome of the delete protection for the run; `added` the
      bytes the snapshot recorded as new when it was taken. */
  datatype Snapshot = Snapshot(id: nat, group: nat, time: int, keep: bool, added: nat)

  // ── Filters and the stable sort by time ───────────────────────────────────

  function Filter(p: Snapshot -> bool, s: seq<Snapshot>): seq<Snapshot> {
    if s == [] then []
    else if p(s[0]) then [s[0]] + Filter(p, s[1..])
    else Filter(p, s[1..])
  }

  function Insert(x: Snapshot, s: seq<Snapshot>): seq<Snapshot> {
    if s == [] || x.time <= s[0].time then [x] + s else [s[0]] + Insert(x, s[1..])
  }

  /** `sort_by` on the time stamp: stable, so ties keep their order. */
  function SortByTime(s: seq<Snapshot>): seq<Snapshot> {
    if s == [] then [] else Insert(s[0], SortByTime(s[1..]))
  }

  predicate Sorted(s: seq<Snapshot>) {
    forall i, j :: 0 <= i < j < |s| ==> s[i].time <= s[j].time
  }

  predicate DistinctIds(s: seq<Snapshot>) {
    forall i, j :: 0 <= i < j < |s| ==> s[i].id != s[j].id
  }

  function Ids(s: seq<Snapshot>): set<nat> { set x | x in s :: x.id }

  lemma {:induction false} FilterIn(p: Snapshot -> bool, s: seq<Snapshot>, x: Snapshot)
    ensures x in Filter(p, s) <==> x in s && p(x)
  {
    if s != [] {
      FilterIn(p, s[1..], x);
    }
  }

  lemma {:induction false} FilterConcat(p: Snapshot -> bool, a: seq<Snapshot>, b: seq<Snapshot>)
    ensures Filter(p, a + b) == Filter(p, a) + Filter(p, b)
  {
    if a == [] {
      assert a + b == b;
    } else {
      FilterConcat(p, a[1..], b);
      assert (a + b)[1..] == a[1..] + b;
    }
  }

  lemma {:induction false} FiltersCommute(p: Snapshot -> bool, q: Snapshot -> bool, s: seq<Snapshot>)
    ensures Filter(p, Filter(q, s)) == Filter(q, Filter(p, s))
  {
    if s != [] {
      FiltersCommute(p, q, s[1..]);
    }
  }

  lemma {:induction false} FilterDistinct(p: Snapshot -> bool, s: seq<Snapshot>)
    requires DistinctIds(s)
    ensures DistinctIds(Filter(p, s))
  {
    if s != [] {
      FilterDistinct(p, s[1..]);
      forall x | x in Filter(p, s[1..])
        ensures x.id != s[0].id
      {
        FilterIn(p, s[1..], x);
      }
    }
  }

  lemma {:induction false} InsertIn(x: Snapshot, s: seq<Snapshot>)
    ensures forall y :: y in Insert(x, s) <==> y == x || y in s
    ensures |Insert(x, s)| == |s| + 1
  {
    if !(s == [] || x.time <= s[0].time) {
      InsertIn(x, s[1..]);
      assert s == [s[0]] + s[1..];
    }
  }

  lemma {:induction false} InsertSorted(x: Snapshot, s: seq<Snapshot>)
    requires Sorted(s)
    ensures Sorted(Insert(x, s))
  {
    if !(s == [] || x.time <= s[0].time) {
      InsertSorted(x, s[1..]);
      InsertIn(x, s[1..]);
      var rest := Insert(x, s[1..]);
      forall k | 0 <= k < |rest|
        ensures s[0].time <= rest[k].time
      {
        assert rest[k] in rest;
      }
    }
  }

  lemma {:induction false} InsertDistinct(x: Snapshot, s: seq<Snapshot>)
    requires DistinctIds(s) && forall y :: y in s ==> y.id != x.id
    ensures DistinctIds(Insert(x, s))
  {
    if !(s == [] || x.time <= s[0].time) {
      InsertDistinct(x, s[1..]);
      InsertIn(x, s[1..]);
      var rest := Insert(x, s[1..]);
      forall k | 0 <= k < |rest|
        ensures rest[k].id != s[0].id
      {
        assert rest[k] in rest;
      }
    }
  }

  lemma {:induction false} SortFacts(s: seq<Snapshot>)
    ensures Sorted(SortByTime(s)) && |SortByTime(s)| == |s|
    ensures forall y :: y in SortByTime(s) <==> y in s
    ensures DistinctIds(s) ==> DistinctIds(SortByTime(s))
  {
    if s != [] {
      var t := SortByTime(s[1..]);
      SortFacts(s[1..]);
      InsertIn(s[0], t);
      InsertSorted(s[0], t);
      assert s == [s[0]] + s[1..];
      if DistinctIds(s) {
        InsertDistinct(s[0], t);
      }
    }
  }

  lemma {:induction false} FilterInsert(p: Snapshot -> bool, x: Snapshot, s: seq<Snapshot>)
    requires Sorted(s)
    ensures Filter(p, Insert(x, s)) == if p(x) then Insert(x, Filter(p, s)) else Filter(p, s)
  {
    if s == [] || x.time <= s[0].time {
      assert ([x] + s)[1..] == s;
      forall y | y in Filter(p, s)
        ensures x.time <= y.time
      {
        FilterIn(p, s, y);
      }
    } else {
      FilterInsert(p, x, s[1..]);
      assert ([s[0]] + Insert(x, s[1..]))[1..] == Insert(x, s[1..]);
      if p(s[0]) {
        assert Filter(p, s)[1..] == Filter(p, s[1..]);
      }
    }
  }

  /** Sorting what is left is the same as leaving out of what is sorted. */
  lemma {:induction false} FilterSort(p: Snapshot -> bool, s: seq<Snapshot>)
    ensures Filter(p, SortByTime(s)) == SortByTime(Filter(p, s))
  {
    if s != [] {
      FilterSort(p, s[1..]);
      SortFacts(s[1..]);
      FilterInsert(p, s[0], SortByTime(s[1..]));
      if p(s[0]) {
        assert Filter(p, s)[0] == s[0] && Filter(p, s)[1..] == Filter(p, s[1..]);
      }
    }
  }

  function DropLast(s: seq<Snapshot>): seq<Snapshot> { if s == [] then [] else s[..|s| - 1] }

  lemma FilterDropLast(p: Snapshot -> bool, s: seq<Snapshot>)
    requires s != [] ==> p(s[|s| - 1])
    ensures Filter(p, DropLast(s)) == DropLast(Filter(p, s))
    ensures s != [] ==> Filter(p, s) != [] && Filter(p, s)[|Filter(p, s)| - 1] == s[|s| - 1]
  {
    if s != [] {
      var last := s[|s| - 1];
      assert s == DropLast(s) + [last];
      FilterConcat(p, DropLast(s), [last]);
      assert Filter(p, [last]) == [last];
    }
  }

  // ── Candidates ────────────────────────────────────────────────────────────

  function InGroup(g: nat): Snapshot -> bool { (x: Snapshot) => x.group == g }

  function Unprotected(): Snapshot -> bool { (x: Snapshot) => !x.keep }

  function Alive(dead: set<nat>): Snapshot -> bool { (x: Snapshot) => x.id !in dead }

  /** One group in time order; its last element is the group's newest. */
  function Group(all: seq<Snapshot>, g: nat): seq<Snapshot> { SortByTime(Filter(InGroup(g), all)) }

  predicate IsNewest(all: seq<Snapshot>, x: Snapshot) {
    var grp := Group(all, x.group);
    grp != [] && x == grp[|grp| - 1]
  }

  function Deletable(all: seq<Snapshot>, g: nat): seq<Snapshot> {
    Filter(Unprotected(), DropLast(Group(all, g)))
  }

  /** `order` is the order in which grouping yields the groups. */
  function Eligible(all: seq<Snapshot>, order: seq<nat>): seq<Snapshot> {
    if order == [] then []
    else Eligible(all, order[..|order| - 1]) + Deletable(all, order[|order| - 1])
  }

  function Candidates(all: seq<Snapshot>, order: seq<nat>): seq<Snapshot> {
    SortByTime(Eligible(all, order))
  }

  /** The loop of `fifo_candidates`: sort a group, pop its newest, keep the
      unprotected rest; finally sort everything by time. */
  method FifoCandidates(all: seq<Snapshot>, order: seq<nat>) returns (out: seq<Snapshot>)
    ensures out == Candidates(all, order)
  {
    out := [];
    for n := 0 to |order|
      invariant out == Eligible(all, order[..n])
    {
      var items := SortByTime(Filter(InGroup(order[n]), all));
      if items != [] {
        items := items[..|items| - 1];
      }
      out := out + Filter(Unprotected(), items);
      assert order[..n + 1][..n] == order[..n];
    }
    assert order[..|order|] == order;
    out := SortByTime(out);
  }

  lemma DeletableIn(all: seq<Snapshot>, g: nat, x: Snapshot)
    requires DistinctIds(all)
    ensures DistinctIds(Deletable(all, g))
    ensures x in Deletable(all, g) <==>
              x in all && x.group == g && !x.keep && !IsNewest(all, x)
  {
    var grp := Group(all, g);
    FilterIn(InGroup(g), all, x);
    FilterDistinct(InGroup(g), all);
    SortFacts(Filter(InGroup(g), all));
    FilterIn(Unprotected(), DropLast(grp), x);
    FilterDistinct(Unprotected(), DropLast(grp));
    if grp != [] {
      assert x in grp <==> x in DropLast(grp) || x == grp[|grp| - 1];
    }
  }

  lemma {:induction false} EligibleIn(all: seq<Snapshot>, order: seq<nat>, x: Snapshot)
    requires DistinctIds(all)
    ensures x in Eligible(all, order) <==> x.group in order && x in Deletable(all, x.group)
  {
    if order != [] {
      var rest, g := order[..|order| - 1], order[|order| - 1];
      EligibleIn(all, rest, x);
      DeletableIn(all, g, x);
      var a, b := Eligible(all, rest), Deletable(all, g);
      assert x in a + b <==> x in a || x in b;
      assert order == rest + [g] && (x.group in order <==> x.group in rest || x.group == g);
    }
  }

  predicate NoRepeats(order: seq<nat>) {
    forall i, j :: 0 <= i < j < |order| ==> order[i] != order[j]
  }

  lemma SameId(all: seq<Snapshot>, x: Snapshot, y: Snapshot)
    requires DistinctIds(all) && x in all && y in all && x.id == y.id
    ensures x == y
  {
    var i :| 0 <= i < |all| && all[i] == x;
    var j :| 0 <= j < |all| && all[j] == y;
    assert i == j;
  }

  lemma {:induction false} EligibleDistinct(all: seq<Snapshot>, order: seq<nat>)
    requires DistinctIds(all) && NoRepeats(order)
    ensures DistinctIds(Eligible(all, order))
  {
    if order != [] {
      var rest, g := order[..|order| - 1], order[|order| - 1];
      EligibleDistinct(all, rest);
      var a, b := Eligible(all, rest), Deletable(all, g);
      forall x, y | x in a && y in b
        ensures x.id != y.id
      {
        EligibleIn(all, rest, x);
        DeletableIn(all, x.group, x);
        DeletableIn(all, g, y);
        if x.id == y.id { SameId(all, x, y); }
      }
      if b != [] { DeletableIn(all, g, b[0]); }
    }
  }

  /** What the space rule may touch: never a protected snapshot, never the
      newest of its group, and nothing twice. */
  lemma CandidateFacts(all: seq<Snapshot>, order: seq<nat>, x: Snapshot)
    requires DistinctIds(all) && NoRepeats(order)
    ensures Sorted(Candidates(all, order)) && DistinctIds(Candidates(all, order))
    ensures x in Candidates(all, order) <==>
              x.group in order && x in all && !x.keep && !IsNewest(all, x)
  {
    SortFacts(Eligible(all, order));
    EligibleDistinct(all, order);
    EligibleIn(all, order, x);
    DeletableIn(all, x.group, x);
  }

  /** The last of a group really is its newest. */
  lemma NewestOfGroup(all: seq<Snapshot>, x: Snapshot)
    requires x in all
    ensures var grp := Group(all, x.group);
            grp != [] && grp[|grp| - 1] in all && grp[|grp| - 1].group == x.group
            && x.time <= grp[|grp| - 1].time
  {
    var grp := Group(all, x.group);
    var members := Filter(InGroup(x.group), all);
    FilterIn(InGroup(x.group), all, x);
    SortFacts(members);
    assert x in grp && grp[|grp| - 1] in grp;
    FilterIn(InGroup(x.group), all, grp[|grp| - 1]);
  }

  // ── Asking in another order ───────────────────────────────────────────────

  predicate SameMembers(a: seq<Snapshot>, b: seq<Snapshot>) { (forall x <- a :: x in b) && forall x <- b :: x in a }

  /** The time tells the snapshots apart. */
  predicate DistinctTimes(s: seq<Snapshot>) { forall x, y :: x in s && y in s && x.time == y.time ==> x == y }

  lemma {:induction false} SortedIsUnique(a: seq<Snapshot>, b: seq<Snapshot>)
    requires Sorted(a) && Sorted(b) && DistinctIds(a) && DistinctIds(b) && SameMembers(a, b) && DistinctTimes(a)
    ensures a == b
  {
    assert b != [] ==> b[0] in b;
    if a != [] {
      assert a[0] in b && b != [] && b[0] in a;
      assert a[0] == b[0];
      forall x
        ensures x in a[1..] <==> x in a && x.id != a[0].id
        ensures x in b[1..] <==> x in b && x.id != b[0].id
      {
        TailMembers(a, x);
        TailMembers(b, x);
      }
      assert SameMembers(a[1..], b[1..]) && DistinctTimes(a[1..]);
      SortedIsUnique(a[1..], b[1..]);
    }
  }

  lemma TailMembers(s: seq<Snapshot>, x: Snapshot)
    requires s != [] && DistinctIds(s)
    ensures x in s[1..] <==> x in s && x.id != s[0].id
  {
    if x in s[1..] {
      var i :| 0 <= i < |s[1..]| && s[1..][i] == x;
      assert s[i + 1] == x;
    }
  }

  lemma SameNewest(a: seq<Snapshot>, b: seq<Snapshot>, x: Snapshot)
    requires SameMembers(a, b) && DistinctTimes(a) && x in a
    ensures IsNewest(a, x) <==> IsNewest(b, x)
  {
    hide Group;
    var m, n := Group(a, x.group), Group(b, x.group);
    NewestOfGroup(a, x);
    NewestOfGroup(b, x);
    NewestOfGroup(a, n[|n| - 1]);
    NewestOfGroup(b, m[|m| - 1]);
  }

  /** With times that tell the snapshots apart, the candidates do not depend on the
      order in which snapshots or groups are listed. */
  lemma CandidatesOfAnyListing(a: seq<Snapshot>, order: seq<nat>, b: seq<Snapshot>, other: seq<nat>)
    requires DistinctIds(a) && DistinctIds(b) && SameMembers(a, b) && DistinctTimes(a)
    requires NoRepeats(order) && NoRepeats(other) && forall x <- a :: x.group in order <==> x.group in other
    ensures Candidates(a, order) == Candidates(b, other)
  {
    hide Candidates, IsNewest;
    var c, d := Candidates(a, order), Candidates(b, other);
    forall x
      ensures x in c <==> x in d
      ensures x in c ==> x in a
    {
      CandidateFacts(a, order, x);
      CandidateFacts(b, other, x);
      if x in a {
        SameNewest(a, b, x);
      }
    }
    CandidateFacts(a, order, Snapshot(0, 0, 0, false, 0));
    CandidateFacts(b, other, Snapshot(0, 0, 0, false, 0));
    assert SameMembers(c, d) && DistinctTimes(c);
    SortedIsUnique(c, d);
  }

  // ── Asking again after a deletion ─────────────────────────────────────────

  lemma DeletableOfSurvivors(all: seq<Snapshot>, g: nat, dead: set<nat>)
    requires var grp := Group(all, g); grp != [] ==> grp[|grp| - 1].id !in dead
    ensures Deletable(Filter(Alive(dead), all), g) == Filter(Alive(dead), Deletable(all, g))
  {
    FiltersCommute(InGroup(g), Alive(dead), all);
    FilterSort(Alive(dead), Filter(InGroup(g), all));
    FilterDropLast(Alive(dead), Group(all, g));
    FiltersCommute(Unprotected(), Alive(dead), DropLast(Group(all, g)));
  }

  lemma {:induction false} EligibleOfSurvivors(all: seq<Snapshot>, order: seq<nat>, dead: set<nat>)
    requires forall g :: g in order ==> var grp := Group(all, g); grp != [] ==> grp[|grp| - 1].id !in dead
    ensures Eligible(Filter(Alive(dead), all), order) == Filter(Alive(dead), Eligible(all, order))
  {
    if order != [] {
      var rest, g := order[..|order| - 1], order[|order| - 1];
      EligibleOfSurvivors(all, rest, dead);
      DeletableOfSurvivors(all, g, dead);
      FilterConcat(Alive(dead), Eligible(all, rest), Deletable(all, g));
    }
  }

  lemma {:induction false} DropPrefix(s: seq<Snapshot>, k: nat)
    requires DistinctIds(s) && k <= |s|
    ensures Filter(Alive(Ids(s[..k])), s) == s[k..]
  {
    assert s == s[..k] + s[k..];
    FilterConcat(Alive(Ids(s[..k])), s[..k], s[k..]);
    FilterNone(s[..k], Ids(s[..k]));
    forall x | x in s[k..]
      ensures x.id !in Ids(s[..k])
    {
    }
    FilterAll(s[k..], Ids(s[..k]));
  }

  lemma {:induction false} FilterNone(s: seq<Snapshot>, dead: set<nat>)
    requires forall x :: x in s ==> x.id in dead
    ensures Filter(Alive(dead), s) == []
  {
    if s != [] { FilterNone(s[1..], dead); }
  }

  lemma {:induction false} FilterAll(s: seq<Snapshot>, dead: set<nat>)
    requires forall x :: x in s ==> x.id !in dead
    ensures Filter(Alive(dead), s) == s
  {
    if s != [] { FilterAll(s[1..], dead); }
  }

  /** Recomputing the candidates after deleting the first `k` of them gives the
      old list without those `k`: the rounds of one run walk down one list. */
  lemma CandidatesAfterDeletion(all: seq<Snapshot>, order: seq<nat>, k: nat)
    requires DistinctIds(all) && NoRepeats(order) && k <= |Candidates(all, order)|
    ensures var c := Candidates(all, order);
            Candidates(Filter(Alive(Ids(c[..k])), all), order) == c[k..]
  {
    var c := Candidates(all, order);
    var dead := Ids(c[..k]);
    forall g | g in order
      ensures var grp := Group(all, g); grp != [] ==> grp[|grp| - 1].id !in dead
    {
      var grp := Group(all, g);
      if grp != [] {
        NewestIsSafe(all, order, k, g);
      }
    }
    EligibleOfSurvivors(all, order, dead);
    FilterSort(Alive(dead), Eligible(all, order));
    if c != [] { CandidateFacts(all, order, c[0]); }
    DropPrefix(c, k);
  }

  lemma NewestIsSafe(all: seq<Snapshot>, order: seq<nat>, k: nat, g: nat)
    requires DistinctIds(all) && NoRepeats(order) && k <= |Candidates(all, order)|
    requires Group(all, g) != []
    ensures var grp := Group(all, g); grp[|grp| - 1].id !in Ids(Candidates(all, order)[..k])
  {
    var c, grp := Candidates(all, order), Group(all, g);
    var newest := grp[|grp| - 1];
    SortFacts(Filter(InGroup(g), all));
    assert newest in grp;
    FilterIn(InGroup(g), all, newest);
    hide Candidates, Filter, SortByTime, NoRepeats;
    if newest.id in Ids(c[..k]) {
      var x :| x in c[..k] && x.id == newest.id;
      assert x in c;
      CandidateFacts(all, order, x);
      SameId(all, x, newest);
    }
  }

  /** Deleting twice is deleting the union. */
  lemma {:induction false} AliveTwice(s: seq<Snapshot>, a: set<nat>, b: set<nat>)
    ensures Filter(Alive(b), Filter(Alive(a), s)) == Filter(Alive(a + b), s)
  {
    if s != [] {
      AliveTwice(s[1..], a, b);
    }
  }

  /** Every protected snapshot and the newest of every group outlive the
      deletion of any set of candidates. */
  lemma SurvivorsOfReclaim(all: seq<Snapshot>, order: seq<nat>, dead: set<nat>, x: Snapshot)
    requires DistinctIds(all) && NoRepeats(order) && dead <= Ids(Candidates(all, order)) && x in all
    requires x.keep || IsNewest(all, x)
    ensures x in Filter(Alive(dead), all)
  {
    var c := Candidates(all, order);
    FilterIn(Alive(dead), all, x);
    if x.id in dead {
      var y :| y in c && y.id == x.id;
      CandidateFacts(all, order, y);
      SameId(all, x, y);
    }
  }
}
