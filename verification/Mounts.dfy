/** The mount table: how it is built, and which mount owns a path. */
module Mounts {
  import opened Prelude
  import opened PathText

  /** `operator` names the storage behind a mount. */
  datatype Mount = Mounted(operator: string, readOnly: bool, quota: Option<(string, nat)>)

  type Table = map<string, Mount>

  datatype Pending = Pending(path: string, mount: Mount)

  datatype BuildError = RootMount | DuplicateMount(path: string)

  /** Mount paths as `Build` stores them. */
  ghost predicate Rooted(path: string) { path == Normalize(path) && path != "/" }

  ghost predicate RootedTable(mounts: Table) { forall k <- mounts :: Rooted(k) }

  /** No mount path has an empty segment. */
  ghost predicate CanonicalTable(mounts: Table) {
    RootedTable(mounts) && forall k <- mounts :: AllNonEmpty(Segments(k))
  }

  // ── Building ──────────────────────────────────────────────────────────────

  ghost predicate Buildable(pending: seq<Pending>) {
    && (forall p <- pending :: p.path != "/")
    && (forall i, j :: 0 <= i < j < |pending| ==> pending[i].path != pending[j].path)
  }

  ghost predicate HoldsExactly(mounts: Table, pending: seq<Pending>) {
    && (forall k <- mounts :: exists i :: 0 <= i < |pending| && k == pending[i].path)
    && (forall p <- pending :: p.path in mounts && mounts[p.path] == p.mount)
  }

  class VfsBuilder {
    var pending: seq<Pending>

    ghost predicate Valid()
      reads this
    {
      forall p <- pending :: p.path == Normalize(p.path)
    }

    constructor ()
      ensures Valid() && pending == []
    {
      pending := [];
    }

    method Mount(path: string, operator: string)
      requires Valid()
      modifies this
      ensures Valid() && pending == old(pending) + [Pending(Normalize(path), Mounted(operator, false, None))]
    {
      NormalizeTwice(path);
      pending := pending + [Pending(Normalize(path), Mounted(operator, false, None))];
    }

    /** Marks the mount added last. */
    method ReadOnly()
      requires Valid()
      modifies this
      ensures Valid() && |pending| == |old(pending)|
      ensures pending != [] ==>
                var n := |pending| - 1;
                var last := old(pending)[n];
                pending == old(pending)[..n] + [last.(mount := last.mount.(readOnly := true))]
    {
      if pending != [] {
        var n := |pending| - 1;
        pending := pending[n := pending[n].(mount := pending[n].mount.(readOnly := true))];
      }
    }

    /** Fails at the first mount on the root or on a path already taken. */
    method Build() returns (r: Result<Table, BuildError>)
      requires Valid()
      ensures r.Ok? <==> Buildable(pending)
      ensures r.Ok? ==> RootedTable(r.value) && HoldsExactly(r.value, pending)
      ensures r.Err? ==> exists i :: 0 <= i < |pending| && Buildable(pending[..i])
                           && r.error == if pending[i].path == "/" then RootMount else DuplicateMount(pending[i].path)
    {
      hide Normalize, Buildable, HoldsExactly;
      NothingBuilt();
      var mounts: Table := map[];
      assert pending[..0] == [];
      for i := 0 to |pending|
        invariant Buildable(pending[..i]) && RootedTable(mounts) && HoldsExactly(mounts, pending[..i])
      {
        var p := pending[i];
        BuildStep(mounts, pending[..i], p);
        assert pending[..i + 1] == pending[..i] + [p];
        assert p in pending;
        if p.path == "/" {
          BuildablePrefix(pending, i + 1);
          return Err(RootMount);
        }
        if p.path in mounts {
          BuildablePrefix(pending, i + 1);
          return Err(DuplicateMount(p.path));
        }
        mounts := mounts[p.path := p.mount];
      }
      assert pending[..|pending|] == pending;
      r := Ok(mounts);
    }
  }

  lemma NothingBuilt()
    ensures Buildable([]) && HoldsExactly(map[], [])
  {
  }

  lemma BuildableWith(pending: seq<Pending>, p: Pending)
    requires Buildable(pending)
    ensures Buildable(pending + [p]) <==> p.path != "/" && forall q <- pending :: q.path != p.path
  {
    var next := pending + [p];
    assert next[|pending|] == p;
    forall i | 0 <= i < |pending|
      ensures next[i] == pending[i] && pending[i] in pending
    {
    }
  }

  lemma BuildStep(mounts: Table, pending: seq<Pending>, p: Pending)
    requires Buildable(pending) && HoldsExactly(mounts, pending)
    ensures Buildable(pending + [p]) <==> p.path != "/" && p.path !in mounts
    ensures Buildable(pending + [p]) ==> HoldsExactly(mounts[p.path := p.mount], pending + [p])
  {
    BuildableWith(pending, p);
    var next := pending + [p];
    assert next[|pending|] == p && forall q <- next :: q in pending || q == p;
    hide Buildable;
    forall k <- mounts
      ensures exists i :: 0 <= i < |next| && k == next[i].path
    {
      var i :| 0 <= i < |pending| && k == pending[i].path;
      assert next[i].path == k;
    }
  }

  lemma BuildablePrefix(pending: seq<Pending>, n: nat)
    requires n <= |pending|
    ensures Buildable(pending) ==> Buildable(pending[..n])
  {
    assert pending == pending[..n] + pending[n..];
  }

  lemma NormalizeTwice(path: string)
    ensures Normalize(Normalize(path)) == Normalize(path)
  {
    var t := Trim(path);
    if t == "" {
      assert TrimStart("/") == "";
    } else {
      TrimmedEnds(path);
      Trimmed(t, "");
      assert "/" + t + "" == "/" + t;
    }
  }

  lemma TrimmedEnds(path: string)
    requires Trim(path) != ""
    ensures Trim(path)[0] != '/' && Trim(path)[|Trim(path)| - 1] != '/'
  {
    assert Trim(path)[0] == TrimStart(path)[0];
  }

  // ── Routing ───────────────────────────────────────────────────────────────

  datatype Route = Route(mountPath: string, mount: Mount, rel: string)

  predicate Owns(mountPath: string, normalized: string) {
    normalized == mountPath || mountPath + "/" <= normalized
  }

  predicate EndsInSlash(s: string) { s != "" && s[|s| - 1] == '/' }

  function Owners(mounts: Table, path: string): set<string> {
    set k | k in mounts && Owns(k, Normalize(path))
  }

  /** The longest mount path that owns `path`, and the path below it. */
  function ResolvePath(mounts: Table, path: string): Option<Route> {
    var normalized := Normalize(path);
    var owners := Owners(mounts, path);
    if owners == {} then None
    else
      LongestExists(owners);
      LongestIsUnique(owners, normalized);
      var k :| k in owners && forall j <- owners :: |j| <= |k|;
      var rest := TrimStart(normalized[|k|..]);
      var rel := if EndsInSlash(path) && rest != "" && !EndsInSlash(rest) then rest + "/" else rest;
      Some(Route(k, mounts[k], rel))
  }

  lemma {:induction false} LongestExists(paths: set<string>)
    requires paths != {}
    ensures exists k :: k in paths && forall j <- paths :: |j| <= |k|
  {
    var x :| x in paths;
    if paths != {x} {
      LongestExists(paths - {x});
      var k :| k in paths - {x} && forall j <- paths - {x} :: |j| <= |k|;
      var best := if |x| <= |k| then k else x;
      assert best in paths && forall j <- paths :: |j| <= |best|;
    }
  }

  lemma LongestIsUnique(owners: set<string>, normalized: string)
    requires forall k <- owners :: Owns(k, normalized)
    ensures forall j, k :: j in owners && k in owners && |j| == |k| ==> j == k
  {
    forall j, k | j in owners && k in owners && |j| == |k|
      ensures j == k
    {
      assert j == normalized[..|j|] && k == normalized[..|k|];
    }
  }

  lemma RootedText(k: string)
    requires Rooted(k)
    ensures Segments(k) != [] && k == Text(Segments(k)) && Segments(k)[|Segments(k)| - 1] != "" && Segments(k)[0] != ""
  {
    NormalizeIsText(k);
    TrimmedEnds(k);
    SplitEnds(Trim(k));
  }

  lemma {:induction false} SplitEnds(s: string)
    requires s != "" && s[|s| - 1] != '/'
    ensures Split(s)[|Split(s)| - 1] != ""
    ensures s[0] != '/' ==> Split(s)[0] != ""
    decreases |s|
  {
    var r := Cut(s);
    if r.1.Some? {
      assert s[|s| - 1] == if r.1.value == "" then '/' else r.1.value[|r.1.value| - 1];
      SplitEnds(r.1.value);
    }
  }

  /** Owning a path is having a prefix of its segments. */
  lemma OwnsIff(k: string, path: string)
    requires Rooted(k)
    ensures Owns(k, Normalize(path)) <==> Segments(k) <= Segments(path)
  {
    RootedText(k);
    NormalizeIsText(path);
    PrefixIff(Segments(k), Segments(path));
    if Segments(path) == [] {
      assert |k| > 0;
    }
  }

  /** No route exactly when no mount's segments start the path. */
  lemma NoRouteIff(mounts: Table, path: string)
    requires RootedTable(mounts)
    ensures ResolvePath(mounts, path).None? <==> forall k <- mounts :: !(Segments(k) <= Segments(path))
  {
    forall k <- mounts
      ensures k in Owners(mounts, path) <==> Segments(k) <= Segments(path)
    {
      OwnsIff(k, path);
    }
    if ResolvePath(mounts, path).None? {
      assert Owners(mounts, path) == {};
    }
  }

  lemma OwnersBelow(mounts: Table, path: string, k: string)
    requires RootedTable(mounts) && k in mounts && Segments(k) <= Segments(path)
    requires forall j <- mounts :: Segments(j) <= Segments(path) ==> |Segments(j)| <= |Segments(k)|
    ensures k in Owners(mounts, path) && forall j <- Owners(mounts, path) :: |j| <= |k|
  {
    hide Normalize, Segments;
    OwnsIff(k, path);
    forall j <- Owners(mounts, path)
      ensures |j| <= |k|
    {
      OwnsIff(j, path);
      Nested(j, k, path);
    }
  }

  /** The route leads to the mount with the longest matching segments; below it
      remain the other segments, and the slash the path ended in. */
  lemma RouteIs(mounts: Table, path: string, k: string)
    requires RootedTable(mounts) && k in mounts && Segments(k) <= Segments(path)
    requires forall j <- mounts :: Segments(j) <= Segments(path) ==> |Segments(j)| <= |Segments(k)|
    ensures var rest := TrimStart(Join(Segments(path)[|Segments(k)|..]));
            ResolvePath(mounts, path)
            == Some(Route(k, mounts[k], if EndsInSlash(path) && rest != "" then rest + "/" else rest))
  {
    hide Normalize, Segments, TrimStart, Join;
    OwnersBelow(mounts, path, k);
    LongestIsUnique(Owners(mounts, path), Normalize(path));
    RestOf(path, k);
  }

  lemma Nested(j: string, k: string, path: string)
    requires Rooted(j) && Rooted(k) && Segments(j) <= Segments(path) && Segments(k) <= Segments(path)
    requires |Segments(j)| <= |Segments(k)|
    ensures |j| <= |k|
  {
    hide Text, Segments, Rooted;
    RootedText(j);
    RootedText(k);
    PrefixOfBoth(Segments(j), Segments(k), Segments(path));
    PrefixIff(Segments(j), Segments(k));
  }

  lemma PrefixOfBoth(a: seq<string>, b: seq<string>, c: seq<string>)
    requires a <= c && b <= c && |a| <= |b|
    ensures a <= b
  {
    assert a == c[..|a|] && b == c[..|b|];
  }

  lemma TailText(path: string, k: string)
    requires Rooted(k) && Segments(k) <= Segments(path)
    ensures |k| <= |Normalize(path)|
    ensures Normalize(path)[|k|..] == Text(Segments(path)[|Segments(k)|..])
    ensures !EndsInSlash(Normalize(path))
  {
    RootedText(k);
    NormalizeIsText(path);
    if Segments(path) != [] {
      TrimmedEnds(path);
    }
    PrefixIff(Segments(k), Segments(path));
    hide Segments, Text;
  }

  lemma RestOf(path: string, k: string)
    requires Rooted(k) && Segments(k) <= Segments(path)
    ensures |k| <= |Normalize(path)|
    ensures TrimStart(Normalize(path)[|k|..]) == TrimStart(Join(Segments(path)[|Segments(k)|..]))
    ensures !EndsInSlash(TrimStart(Normalize(path)[|k|..]))
  {
    hide Normalize, Segments, Split;
    TailText(path, k);
    var tail := Segments(path)[|Segments(k)|..];
    TrimStartEnds(Text(tail));
    if tail != [] {
      JoinStep(tail);
      assert ("/" + Join(tail))[1..] == Join(tail);
    }
  }

  lemma {:induction false} TrimStartEnds(s: string)
    ensures EndsInSlash(TrimStart(s)) ==> EndsInSlash(s)
  {
    if s != "" && s[0] == '/' {
      TrimStartEnds(s[1..]);
    }
  }

  lemma {:induction false} TrimStartLast(s: string)
    requires TrimStart(s) != ""
    ensures TrimStart(s)[|TrimStart(s)| - 1] == s[|s| - 1]
  {
    if s[0] == '/' {
      TrimStartLast(s[1..]);
    }
  }

  lemma NormalizeLength(path: string)
    requires path != "" && path[0] == '/'
    ensures |Normalize(path)| <= |path|
    ensures EndsInSlash(path) && Normalize(path) != "/" ==> |Normalize(path)| < |path|
  {
    if TrimStart(path) != "" {
      TrimStartLast(path);
    }
  }

  /** Mount path and remaining path together are no longer than the path routed. */
  lemma RouteLength(mounts: Table, path: string)
    requires path != "" && path[0] == '/' && ResolvePath(mounts, path).Some?
    ensures var r := ResolvePath(mounts, path).value;
            |r.mountPath| + (if r.rel == "" then 0 else 1 + |r.rel|) <= |path|
  {
    var r := ResolvePath(mounts, path).value;
    var n, k := Normalize(path), r.mountPath;
    NormalizeLength(path);
    assert k in Owners(mounts, path) && Owns(k, n);
    hide Normalize, Owners;
    var rest := n[|k|..];
    if n == k {
      assert rest == "" && TrimStart(rest) == "";
    } else {
      assert rest[0] == '/';
      assert |TrimStart(rest)| <= |rest| - 1;
    }
  }

  /** The mount a route leads to has the most segments of all that match. */
  lemma RouteIsLongest(mounts: Table, path: string)
    requires RootedTable(mounts) && ResolvePath(mounts, path).Some?
    ensures var k := ResolvePath(mounts, path).value.mountPath;
            && k in mounts && Segments(k) <= Segments(path)
            && forall j <- mounts :: Segments(j) <= Segments(path) ==> |Segments(j)| <= |Segments(k)|
  {
    var k := ResolvePath(mounts, path).value.mountPath;
    assert k in Owners(mounts, path);
    OwnsIff(k, path);
    hide Normalize, Segments;
    forall j <- mounts | Segments(j) <= Segments(path)
      ensures |Segments(j)| <= |Segments(k)|
    {
      OwnsIff(j, path);
      assert j in Owners(mounts, path);
      if |Segments(j)| > |Segments(k)| {
        StrictlyNested(k, j, path);
      }
    }
  }

  lemma StrictlyNested(j: string, k: string, path: string)
    requires Rooted(j) && Rooted(k) && Segments(j) <= Segments(path) && Segments(k) <= Segments(path)
    requires |Segments(j)| < |Segments(k)|
    ensures |j| < |k|
  {
    hide Text, Segments, Rooted;
    RootedText(j);
    RootedText(k);
    PrefixOfBoth(Segments(j), Segments(k), Segments(path));
    PrefixIff(Segments(j), Segments(k));
    TextGrows(Segments(k)[|Segments(j)|..]);
  }

  lemma TextGrows(segs: seq<string>)
    ensures segs != [] ==> Text(segs) != ""
  {
  }

  lemma SameTextIff(k: string, path: string)
    requires Rooted(k)
    ensures Normalize(path) == k <==> Segments(path) == Segments(k)
  {
    RootedText(k);
    NormalizeIsText(path);
    hide Segments, Normalize;
    PrefixIff(Segments(k), Segments(path));
    PrefixIff(Segments(path), Segments(k));
  }
}
