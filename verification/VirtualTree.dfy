/** The directories above the mounts: derived from the mount table, never stored. */
module VirtualTree {
  import opened Prelude
  import opened PathText
  import opened Mounts

  /** `a` is a proper prefix of `b`. */
  predicate Above(a: seq<string>, b: seq<string>) { a <= b && |a| < |b| }

  /** The next segments of the mounts below a path. */
  ghost function Children(mounts: Table, path: string): (r: set<string>)
    ensures forall c :: c in r <==> exists k :: k in mounts && NextSegment(k, path, c)
  {
    set k | k in mounts && Above(Segments(path), Segments(k)) && Segments(k)[|Segments(path)|] != "" ::
      Segments(k)[|Segments(path)|]
  }

  ghost predicate NextSegment(k: string, path: string, c: string) {
    Above(Segments(path), Segments(k)) && Segments(k)[|Segments(path)|] == c && c != ""
  }

  function ListingPrefix(path: string): string {
    var n := Normalize(path);
    if n != "/" && !EndsInSlash(n) then n + "/" else n
  }

  lemma ListingPrefixIsText(path: string)
    ensures ListingPrefix(path) == Text(Segments(path)) + "/"
    ensures ListingPrefix(path) == "/" <==> Segments(path) == []
  {
    NormalizeIsText(path);
    if Segments(path) != [] {
      TrimmedEnds(path);
      assert Normalize(path) == "/" + Trim(path);
    }
  }

  /** What stripping the prefix and cutting at a slash finds. */
  lemma StripFinds(k: string, path: string)
    requires Rooted(k)
    ensures ListingPrefix(path) <= k <==> Above(Segments(path), Segments(k))
    ensures ListingPrefix(path) <= k ==>
              && k[|ListingPrefix(path)|..] != ""
              && Cut(k[|ListingPrefix(path)|..]).0 == Segments(k)[|Segments(path)|]
  {
    var s, t := Segments(path), Segments(k);
    ListingPrefixIsText(path);
    RootedText(k);
    PrefixIff(s, t);
    hide ListingPrefix, Segments, Text, Cut, Join, Normalize;
    if s == t {
      assert |k| == |Text(s)|;
    } else if s <= t {
      TextBelow(s, t);
      var tail := Join(t[|s|..]);
      assert (Text(s) + "/" + tail)[|Text(s) + "/"|..] == tail;
    }
  }

  lemma TextBelow(s: seq<string>, t: seq<string>)
    requires AllSlashFree(t) && Above(s, t) && t[|t| - 1] != ""
    ensures Text(t) == Text(s) + "/" + Join(t[|s|..])
    ensures Join(t[|s|..]) != "" && Cut(Join(t[|s|..])).0 == t[|s|]
  {
    hide Text, Cut, Join;
    var tail := t[|s|..];
    TextAppend(s, tail);
    assert s + tail == t;
    JoinStep(tail);
    EndsOfTail(tail);
    CutTail(tail);
  }

  /** Walks the mount paths, collecting what comes next below `path`. */
  method VirtualChildren(mounts: Table, path: string) returns (r: Option<set<string>>)
    requires RootedTable(mounts)
    ensures r == ChildrenOf(mounts, path)
  {
    hide Segments, Normalize, ListingPrefix, Cut;
    ListingPrefixIsText(path);
    var prefix := ListingPrefix(path);
    var children := {};
    var left := mounts.Keys;
    while left != {}
      invariant left <= mounts.Keys
      invariant forall c :: c in children <==> exists k :: k in mounts && k !in left && NextSegment(k, path, c)
      decreases |left|
    {
      var k :| k in left;
      StripFinds(k, path);
      ghost var was := left;
      left := left - {k};
      if prefix <= k {
        var rest := k[|prefix|..];
        var segment := Cut(rest).0;
        if rest != "" && segment != "" {
          assert NextSegment(k, path, segment);
          children := children + {segment};
        }
      }
      assert forall c :: NextSegment(k, path, c) ==> c in children;
    }
    assert children == Children(mounts, path);
    r := if children == {} && prefix != "/" then None else Some(children);
  }

  ghost function ChildrenOf(mounts: Table, path: string): Option<set<string>> {
    if Children(mounts, path) == {} && Segments(path) != [] then None else Some(Children(mounts, path))
  }

  // ── Stat and list ─────────────────────────────────────────────────────────

  /** What stat says of a path; below a mount its storage is asked. */
  datatype Stat = Directory | Asked(mountPath: string, rel: string) | Missing

  datatype Listing = Real(route: Route) | Synthetic(entries: set<string>) | NotThere

  ghost function Metadata(mounts: Table, path: string): Stat {
    var route := ResolvePath(mounts, path);
    if route.Some? then
      if Normalize(path) == route.value.mountPath && route.value.rel == "" then Directory
      else Asked(route.value.mountPath, route.value.rel)
    else if ChildrenOf(mounts, path).Some? then Directory
    else Missing
  }

  function EntryPath(path: string, name: string): string {
    var base := Normalize(path);
    if base == "/" then name + "/" else TrimStart(base) + "/" + name + "/"
  }

  ghost function List(mounts: Table, path: string): Listing {
    var route := ResolvePath(mounts, path);
    if route.Some? then Real(route.value)
    else if ChildrenOf(mounts, path).Some? then Synthetic(set c | c in Children(mounts, path) :: EntryPath(path, c))
    else NotThere
  }

  ghost predicate OnTheWay(mounts: Table, path: string) {
    Segments(path) == [] || exists k :: k in mounts && (Segments(path) <= Segments(k) || Segments(k) <= Segments(path))
  }

  /** Listing and stat find the same paths: the root, what lies above a mount, the
      mounts, and whatever lies below one, of which only its storage knows more. */
  lemma FoundIff(mounts: Table, path: string)
    requires CanonicalTable(mounts)
    ensures !List(mounts, path).NotThere? <==> OnTheWay(mounts, path)
    ensures !Metadata(mounts, path).Missing? <==> OnTheWay(mounts, path)
  {
    RoutedOrAbove(mounts, path);
    hide OnTheWay, ResolvePath, ChildrenOf, Normalize, CanonicalTable;
  }

  lemma RoutedOrAbove(mounts: Table, path: string)
    requires CanonicalTable(mounts)
    ensures OnTheWay(mounts, path) <==> ResolvePath(mounts, path).Some? || ChildrenOf(mounts, path).Some?
  {
    NoRouteIff(mounts, path);
    ChildrenIff(mounts, path);
    hide Segments, Normalize, ResolvePath, Children, ChildrenOf, CanonicalTable;
  }

  /** Below a mount, stat and list ask its storage about the same path: the
      remaining segments, with the slash the path ended in. */
  lemma BelowMountIsAsked(mounts: Table, path: string, k: string)
    requires CanonicalTable(mounts) && k in mounts && forall j <- mounts :: !Above(Segments(k), Segments(j))
    requires Above(Segments(k), Segments(path)) && Segments(path)[|Segments(k)|] != ""
    ensures var rest := Join(Segments(path)[|Segments(k)|..]);
            var rel := if EndsInSlash(path) then rest + "/" else rest;
            && Metadata(mounts, path) == Asked(k, rel)
            && List(mounts, path) == Real(Route(k, mounts[k], rel))
  {
    OnlyOwner(mounts, k, path);
    SameTextIff(k, path);
    TailOfPath(path, |Segments(k)|);
    hide Segments, Normalize, ResolvePath, Children, Join, TrimStart, CanonicalTable;
    assert RootedTable(mounts) by { Canonical(mounts); }
    RouteIs(mounts, path, k);
  }

  lemma Canonical(mounts: Table)
    requires CanonicalTable(mounts)
    ensures RootedTable(mounts)
  {
  }

  lemma TailOfPath(path: string, n: nat)
    requires n < |Segments(path)| && Segments(path)[n] != ""
    ensures var rest := Join(Segments(path)[n..]); rest != "" && TrimStart(rest) == rest
  {
    EndsOfSegments(path);
    hide Segments, Join;
    EndsOfJoin(Segments(path)[n..]);
  }

  /** A path is a directory of the tree itself exactly when it is a mount path, or
      when it lies above one or is the root and no mount holds it. */
  lemma DirectoryIff(mounts: Table, path: string)
    requires CanonicalTable(mounts)
    ensures Metadata(mounts, path) == Directory <==>
            || (exists k :: k in mounts && Segments(k) == Segments(path))
            || ((Segments(path) == [] || exists k :: k in mounts && Above(Segments(path), Segments(k)))
                && forall k <- mounts :: !(Segments(k) <= Segments(path)))
  {
    NoRouteIff(mounts, path);
    ChildrenIff(mounts, path);
    hide Segments, Children, ChildrenOf, Normalize, ResolvePath;
    if ResolvePath(mounts, path).Some? {
      OwnedDirectoryIff(mounts, path);
    }
  }

  lemma ChildrenIff(mounts: Table, path: string)
    requires CanonicalTable(mounts)
    ensures ChildrenOf(mounts, path).Some?
            <==> Segments(path) == [] || exists k :: k in mounts && Above(Segments(path), Segments(k))
  {
    hide Segments, Normalize;
    forall k | k in mounts && Above(Segments(path), Segments(k))
      ensures Segments(k)[|Segments(path)|] in Children(mounts, path)
    {
      assert NextSegment(k, path, Segments(k)[|Segments(path)|]);
    }
  }

  lemma OwnedDirectoryIff(mounts: Table, path: string)
    requires CanonicalTable(mounts) && ResolvePath(mounts, path).Some?
    ensures Metadata(mounts, path) == Directory <==> exists k :: k in mounts && Segments(k) == Segments(path)
  {
    hide Segments, Normalize, ResolvePath, Join;
    RouteIsLongest(mounts, path);
    var k := ResolvePath(mounts, path).value.mountPath;
    SameTextIff(k, path);
    if Segments(k) == Segments(path) {
      RouteIs(mounts, path, k);
      assert Segments(path)[|Segments(k)|..] == [];
      assert Join([]) == "" by { JoinNothing(); }
    }
  }

  // ── Walking the tree ──────────────────────────────────────────────────────

  lemma EntrySegments(path: string, name: string)
    requires name != "" && SlashFree(name)
    ensures Segments(EntryPath(path, name)) == Segments(path) + [name]
  {
    var segs := Segments(path);
    NormalizeIsText(path);
    if segs == [] {
      SegmentsOfText([name], "/");
    } else {
      hide Normalize, Segments, EntryPath;
      EndsOfSegments(path);
      EntryText(path, segs, name);
      SegmentsOfText(segs + [name], "/");
    }
  }

  lemma EntryText(path: string, segs: seq<string>, name: string)
    requires segs != [] && AllSlashFree(segs) && segs[0] != "" && segs[|segs| - 1] != ""
    requires Normalize(path) == Text(segs)
    ensures EntryPath(path, name) == Join(segs + [name]) + "/"
  {
    hide Normalize, Join, Text, TrimStart;
    EndsOfJoin(segs);
    JoinStep(segs);
    StripOne(Join(segs));
    JoinPush(segs, name);
  }

  lemma EndsOfSegments(path: string)
    requires Segments(path) != []
    ensures Segments(path)[0] != "" && Segments(path)[|Segments(path)| - 1] != ""
  {
    TrimmedEnds(path);
    SplitEnds(Trim(path));
  }

  lemma StripOne(s: string)
    requires s != "" && s[0] != '/'
    ensures TrimStart("/" + s) == s
  {
    assert ("/" + s)[1..] == s;
  }

  lemma EntryOf(mounts: Table, path: string, e: string)
    requires CanonicalTable(mounts) && List(mounts, path).Synthetic?
    ensures e in List(mounts, path).entries <==>
            exists k, c :: k in mounts && NextSegment(k, path, c) && e == EntryPath(path, c)
    ensures e in List(mounts, path).entries ==>
              Above(Segments(path), Segments(e)) && |Segments(e)| == |Segments(path)| + 1
  {
    hide Segments, EntryPath, ResolvePath;
    if e in List(mounts, path).entries {
      var c :| c in Children(mounts, path) && e == EntryPath(path, c);
      EntrySegments(path, c);
    }
  }

  lemma OneDeeper(s: seq<string>, c: string, k: seq<string>)
    ensures Above(s, k) && k[|s|] == c ==> s + [c] <= k
    ensures k <= s + [c] ==> k <= s || k == s + [c]
  {
  }

  /** Entries are shown as directories, below the root and without a slash before it. */
  lemma EntriesLookLikeDirectories(mounts: Table, path: string, e: string)
    requires CanonicalTable(mounts) && List(mounts, path).Synthetic? && e in List(mounts, path).entries
    ensures EndsInSlash(e) && e[0] != '/'
  {
    hide Segments, ResolvePath, Children, Normalize;
    EntryOf(mounts, path, e);
    var k, c :| k in mounts && NextSegment(k, path, c) && e == EntryPath(path, c);
    NamedByMount(k, path, c);
    if Normalize(path) != "/" {
      StartsPlain(path);
    }
  }

  lemma NamedByMount(k: string, path: string, c: string)
    requires NextSegment(k, path, c)
    ensures c != "" && c[0] != '/'
  {
    assert SlashFree(c);
  }

  lemma StartsPlain(path: string)
    requires Normalize(path) != "/"
    ensures TrimStart(Normalize(path)) != "" && TrimStart(Normalize(path))[0] != '/'
  {
    TrimmedEnds(path);
    StripOne(Trim(path));
  }

  /** Every entry of a synthetic listing is itself a directory of the tree. */
  lemma ListedChildIsDirectory(mounts: Table, path: string, e: string)
    requires CanonicalTable(mounts) && List(mounts, path).Synthetic? && e in List(mounts, path).entries
    ensures Metadata(mounts, e) == Directory
  {
    EntryOf(mounts, path, e);
    var k, c :| k in mounts && NextSegment(k, path, c) && e == EntryPath(path, c);
    EntrySegments(path, c);
    NoRouteIff(mounts, path);
    DirectoryIff(mounts, e);
    OneDeeper(Segments(path), c, Segments(k));
    assert Segments(k) != Segments(e) ==> Above(Segments(e), Segments(k));
    forall j <- mounts
      ensures Segments(j) <= Segments(e) ==> Segments(j) == Segments(e)
    {
      OneDeeper(Segments(path), c, Segments(j));
    }
  }

  /** Successive listings from the root, each entering one listed entry. */
  ghost predicate Trail(mounts: Table, trail: seq<string>) {
    && trail != [] && trail[0] == "/"
    && forall i :: 0 <= i < |trail| - 1 ==> Enters(mounts, trail[i], trail[i + 1])
  }

  ghost predicate Enters(mounts: Table, path: string, next: string) {
    List(mounts, path).Synthetic? && next in List(mounts, path).entries
  }

  ghost predicate Reachable(mounts: Table, k: string) {
    exists trail :: Trail(mounts, trail) && Segments(trail[|trail| - 1]) == Segments(k)
  }

  lemma {:induction false} TrailGrows(mounts: Table, trail: seq<string>, i: nat, j: nat)
    requires CanonicalTable(mounts) && Trail(mounts, trail) && i <= j < |trail|
    ensures |Segments(trail[j])| == j && |Segments(trail[i])| == i && Segments(trail[i]) <= Segments(trail[j])
  {
    hide Enters, Segments;
    if j == 0 {
      RootSegments();
    } else {
      assert Enters(mounts, trail[j - 1], trail[j - 1 + 1]);
      EnteredSegments(mounts, trail[j - 1], trail[j]);
      TrailGrows(mounts, trail, if i < j then i else j - 1, j - 1);
    }
  }

  lemma RootSegments()
    ensures Segments("/") == []
  {
    assert TrimStart("/") == "";
  }

  lemma EnteredSegments(mounts: Table, path: string, next: string)
    requires CanonicalTable(mounts) && Enters(mounts, path, next)
    ensures |Segments(next)| == |Segments(path)| + 1 && Segments(path) == Segments(next)[..|Segments(path)|]
  {
    EntryOf(mounts, path, next);
  }

  function PathTo(segs: seq<string>): string {
    if segs == [] then "/" else EntryPath(PathTo(segs[..|segs| - 1]), segs[|segs| - 1])
  }

  lemma {:induction false} PathToSegments(segs: seq<string>)
    requires AllSlashFree(segs) && AllNonEmpty(segs)
    ensures Segments(PathTo(segs)) == segs
  {
    hide EntryPath, Segments;
    RootSegments();
    if segs != [] {
      var n := |segs| - 1;
      PathToSegments(segs[..n]);
      EntrySegments(PathTo(segs[..n]), segs[n]);
      assert segs == segs[..n] + [segs[n]];
    }
  }

  /** A mount is found by listing down from the root exactly when no other mount
      lies above it. */
  lemma ReachableIff(mounts: Table, k: string)
    requires CanonicalTable(mounts) && k in mounts
    ensures Reachable(mounts, k) <==> forall j <- mounts :: !Above(Segments(j), Segments(k))
  {
    if Reachable(mounts, k) {
      ReachableIsTop(mounts, k);
    }
    if forall j <- mounts :: !Above(Segments(j), Segments(k)) {
      TopIsReachable(mounts, k);
    }
  }

  lemma ReachableIsTop(mounts: Table, k: string)
    requires CanonicalTable(mounts) && Reachable(mounts, k)
    ensures forall j <- mounts :: !Above(Segments(j), Segments(k))
  {
    hide Segments, CanonicalTable;
    var trail :| Trail(mounts, trail) && Segments(trail[|trail| - 1]) == Segments(k);
    forall j <- mounts
      ensures !Above(Segments(j), Segments(k))
    {
      if Above(Segments(j), Segments(k)) {
        TrailAvoids(mounts, trail, k, j);
      }
    }
  }

  /** A trail never passes through a mount. */
  lemma TrailAvoids(mounts: Table, trail: seq<string>, k: string, j: string)
    requires CanonicalTable(mounts) && Trail(mounts, trail) && Segments(trail[|trail| - 1]) == Segments(k)
    requires j in mounts
    ensures !Above(Segments(j), Segments(k))
  {
    hide Segments, ResolvePath, Children, Metadata, EntryPath;
    var last, i := |trail| - 1, |Segments(j)|;
    TrailGrows(mounts, trail, last, last);
    if i < last {
      TrailGrows(mounts, trail, i, last);
      assert Enters(mounts, trail[i], trail[i + 1]);
      NoRouteIff(mounts, trail[i]);
      SamePrefix(Segments(j), Segments(trail[i]), Segments(k));
    }
  }

  lemma SamePrefix(a: seq<string>, b: seq<string>, c: seq<string>)
    requires b <= c && |a| == |b|
    ensures a <= c ==> a == b
  {
  }

  lemma TopIsReachable(mounts: Table, k: string)
    requires CanonicalTable(mounts) && k in mounts && forall j <- mounts :: !Above(Segments(j), Segments(k))
    ensures Reachable(mounts, k)
  {
    var segs := Segments(k);
    hide Segments, EntryPath;
    var trail := seq(|segs| + 1, i requires 0 <= i < |segs| + 1 => PathTo(segs[..i]));
    forall i | 0 <= i < |segs|
      ensures Enters(mounts, trail[i], trail[i + 1])
    {
      StepDown(mounts, k, i);
    }
    assert segs[..|segs|] == segs;
    PathToSegments(segs);
    assert Trail(mounts, trail);
    assert Segments(trail[|trail| - 1]) == Segments(k);
  }

  lemma StepDown(mounts: Table, k: string, i: nat)
    requires CanonicalTable(mounts) && k in mounts && forall j <- mounts :: !Above(Segments(j), Segments(k))
    requires i < |Segments(k)|
    ensures Enters(mounts, PathTo(Segments(k)[..i]), PathTo(Segments(k)[..i + 1]))
  {
    var segs := Segments(k);
    var path := PathTo(segs[..i]);
    PathToSegments(segs[..i]);
    NoRouteIff(mounts, path);
    ChildrenIff(mounts, path);
    PathToNext(segs, i);
    Below(segs, i);
    hide Segments, EntryPath, ResolvePath, Children, Metadata, Normalize, PathTo;
    assert NextSegment(k, path, segs[i]);
    EntryOf(mounts, path, PathTo(segs[..i + 1]));
  }

  lemma PathToNext(segs: seq<string>, i: nat)
    requires i < |segs|
    ensures PathTo(segs[..i + 1]) == EntryPath(PathTo(segs[..i]), segs[i])
  {
    assert segs[..i + 1][..i] == segs[..i];
    hide EntryPath;
  }

  lemma Below(segs: seq<string>, i: nat)
    requires i < |segs|
    ensures Above(segs[..i], segs)
    ensures forall j: seq<string> :: j <= segs[..i] ==> Above(j, segs)
  {
    assert segs == segs[..i] + segs[i..];
    forall j: seq<string> | j <= segs[..i]
      ensures Above(j, segs)
    {
      assert j == segs[..|j|];
    }
  }

  // ── Listing inside a mount ────────────────────────────────────────────────

  /** How an entry of a mount's own listing is shown to the caller. */
  function Shown(mountPath: string, entry: string): string { TrimEnd(mountPath) + "/" + TrimStart(entry) }

  /** A shown entry, a file's or (with a closing slash) a directory's, is routed
      back to the same mount and to the entry's own path, unless another mount
      lies below this one. */
  lemma ShownEntryRoutesBack(mounts: Table, k: string, segs: seq<string>, tail: string)
    requires CanonicalTable(mounts) && k in mounts && forall j <- mounts :: !Above(Segments(k), Segments(j))
    requires segs != [] && AllSlashFree(segs) && AllNonEmpty(segs) && (tail == "" || tail == "/")
    ensures ResolvePath(mounts, Shown(k, Join(segs) + tail)) == Some(Route(k, mounts[k], Join(segs) + tail))
  {
    hide Segments, Shown, Normalize;
    var path := Shown(k, Join(segs) + tail);
    ShownText(k, segs, tail);
    OnlyOwner(mounts, k, path);
    assert Segments(path)[|Segments(k)|..] == segs;
    RouteIs(mounts, path, k);
    EndsOfJoin(segs);
    hide ResolvePath, Join;
    assert TrimStart(Join(segs)) == Join(segs);
    assert Join(segs) + "" == Join(segs);
  }

  lemma OnlyOwner(mounts: Table, k: string, path: string)
    requires k in mounts && forall j <- mounts :: !Above(Segments(k), Segments(j))
    requires Segments(k) <= Segments(path)
    ensures forall j <- mounts :: Segments(j) <= Segments(path) ==> |Segments(j)| <= |Segments(k)|
  {
    hide Segments;
    forall j <- mounts | Segments(j) <= Segments(path)
      ensures |Segments(j)| <= |Segments(k)|
    {
      BothStart(Segments(k), Segments(j), Segments(path));
    }
  }

  lemma BothStart(a: seq<string>, b: seq<string>, c: seq<string>)
    requires a <= c && b <= c
    ensures |a| <= |b| ==> a <= b
  {
  }

  lemma ShownText(k: string, segs: seq<string>, tail: string)
    requires Rooted(k)
    requires segs != [] && AllSlashFree(segs) && AllNonEmpty(segs) && (tail == "" || tail == "/")
    ensures Segments(Shown(k, Join(segs) + tail)) == Segments(k) + segs
    ensures EndsInSlash(Shown(k, Join(segs) + tail)) <==> tail == "/"
  {
    hide Shown, Segments, Normalize, Text, Join;
    var all := Segments(k) + segs;
    ShownIsText(k, segs, tail);
    RootedText(k);
    SegmentsOfText(all, tail);
    JoinStep(all);
    EndsOfJoin(all);
    assert all[|all| - 1] == segs[|segs| - 1];
  }

  lemma ShownIsText(k: string, segs: seq<string>, tail: string)
    requires Rooted(k)
    requires segs != [] && AllSlashFree(segs) && AllNonEmpty(segs) && (tail == "" || tail == "/")
    ensures Shown(k, Join(segs) + tail) == Text(Segments(k) + segs) + tail
  {
    RootedText(k);
    TrimmedEnds(k);
    EndsOfJoin(segs);
    TextAppend(Segments(k), segs);
    JoinStep(segs);
    hide Text, Join, Segments, Normalize, TrimStart, TrimEnd, AllSlashFree, AllNonEmpty;
    NothingToStrip(k, Join(segs) + tail);
    Grouped(k, Join(segs), tail);
  }

  lemma Grouped(a: string, b: string, c: string)
    ensures a + "/" + (b + c) == a + ("/" + b) + c
  {
  }

  lemma NothingToStrip(k: string, e: string)
    ensures k != "" && !EndsInSlash(k) ==> TrimEnd(k) == k
    ensures e != "" && e[0] != '/' ==> TrimStart(e) == e
  {
  }
}