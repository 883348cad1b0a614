/** From a client's path to a point. One parser decides permission and the local
    root, the mount table decides the storage; both must choose the same point. */
module Routing {
  import opened Prelude
  import opened PathText
  import opened Naming
  import opened Mounts

  /** `id` is the parsed identifier, if the text of one could be parsed. */
  datatype FilePath = Blank | Virtual(path: string) | Indexed(id: Option<Id>, rel: string)

  datatype PathError =
    BlankPath | IllegalPath | MalformedId | UnknownPoint | AmbiguousId | NotUnderRoot | NoPointName

  // ── Relative paths ────────────────────────────────────────────────────────

  function Forward(s: string): (r: string)
    ensures |r| == |s| && forall i :: 0 <= i < |s| ==> r[i] == if s[i] == '\\' then '/' else s[i]
  {
    seq(|s|, i requires 0 <= i < |s| => if s[i] == '\\' then '/' else s[i])
  }

  /** Components that are kept: neither empty nor a dot. */
  function Kept(parts: seq<string>): (r: seq<string>)
    ensures forall p <- r :: p in parts && p != "" && p != "."
  {
    if parts == [] then []
    else
      var n := |parts| - 1;
      Kept(parts[..n]) + if parts[n] == "" || parts[n] == "." then [] else [parts[n]]
  }

  function Components(rest: string): seq<string> { Kept(Split(Forward(rest))) }

  function Validated(rest: string): Option<string> {
    if ".." in Split(Forward(rest)) then None else Some(Join(Components(rest)))
  }

  /** Rebuilds a relative path component by component. */
  method ValidateRelativePointPath(rest: string) returns (r: Result<string, PathError>)
    ensures r == if Validated(rest).Some? then Ok(Validated(rest).value) else Err(IllegalPath)
  {
    hide Split, Forward, Join, Kept;
    var parts := Split(Forward(rest));
    var out := "";
    assert Kept(parts[..0]) == [] && Join([]) == "" by { NothingKept(); }
    for i := 0 to |parts|
      invariant ".." !in parts[..i] && out == Join(Kept(parts[..i]))
      invariant out == "" <==> Kept(parts[..i]) == []
    {
      KeptStep(parts, i);
      if parts[i] == ".." {
        return Err(IllegalPath);
      }
      if parts[i] != "" && parts[i] != "." {
        JoinPush(Kept(parts[..i]), parts[i]);
        out := if out == "" then parts[i] else out + "/" + parts[i];
      }
    }
    assert parts[..|parts|] == parts;
    r := Ok(out);
  }

  lemma NothingKept()
    ensures forall parts: seq<string> :: Kept(parts[..0]) == []
    ensures Join([]) == ""
  {
    JoinNothing();
  }

  lemma KeptStep(parts: seq<string>, i: nat)
    requires i < |parts|
    ensures Kept(parts[..i + 1])
            == if parts[i] == "" || parts[i] == "." then Kept(parts[..i]) else Kept(parts[..i]) + [parts[i]]
  {
    assert parts[..i + 1][..i] == parts[..i];
  }

  /** Components of a cleaned path. */
  ghost predicate Clean(segs: seq<string>) {
    AllSlashFree(segs) && forall s <- segs :: s != "" && s != "." && s != ".." && '\\' !in s
  }

  lemma {:induction false} KeptAll(segs: seq<string>)
    requires forall s <- segs :: s != "" && s != "."
    ensures Kept(segs) == segs
  {
    if segs != [] {
      var n := |segs| - 1;
      assert segs == segs[..n] + [segs[n]];
      assert segs[n] in segs && forall s <- segs[..n] :: s in segs;
      KeptAll(segs[..n]);
    }
  }

  lemma ComponentsAreClean(rest: string)
    requires Validated(rest).Some?
    ensures Clean(Components(rest))
  {
    var parts := Split(Forward(rest));
    PartsFrom(Forward(rest));
    forall s <- Components(rest)
      ensures SlashFree(s) && s != ".." && '\\' !in s
    {
      assert s in parts;
    }
  }

  lemma {:induction false} PartsFrom(s: string)
    ensures forall p, c :: p in Split(s) && c in p ==> c in s
    decreases |s|
  {
    var r := Cut(s);
    if r.1.Some? {
      PartsFrom(r.1.value);
      assert forall p <- Split(s) :: p == r.0 || p in Split(r.1.value);
    }
  }

  /** Cleaning a clean path changes nothing. */
  lemma CleanIsFixed(segs: seq<string>)
    requires Clean(segs)
    ensures Validated(Join(segs)) == Some(Join(segs)) && Components(Join(segs)) == segs
  {
    if segs == [] {
      assert Forward("") == "";
      assert Split("") == [""];
      assert [""][..0] == [];
    } else {
      NoBackslash(segs);
      assert Forward(Join(segs)) == Join(segs);
      TextThenSplit(segs);
      KeptAll(segs);
    }
  }

  lemma {:induction false} NoBackslash(segs: seq<string>)
    requires forall s <- segs :: '\\' !in s
    ensures '\\' !in Join(segs)
  {
    if |segs| > 1 {
      NoBackslash(segs[1..]);
    }
  }

  // ── Points and their mounts ───────────────────────────────────────────────

  /** The first point of that kind with that name. */
  function FindPoint(points: seq<Point>, name: string, isRepo: bool): Option<Point> {
    if points == [] then None
    else if points[0].name == name && points[0].isRepo == isRepo then Some(points[0])
    else FindPoint(points[1..], name, isRepo)
  }

  function WithId(points: seq<Point>, id: Id): seq<Point> {
    if points == [] then [] else (if points[0].id == id then [points[0]] else []) + WithId(points[1..], id)
  }

  function FindPointId(points: seq<Point>, id: Option<Id>): Result<Point, PathError> {
    if id.None? then Err(MalformedId)
    else
      var matching := WithId(points, id.value);
      if matching == [] then Err(UnknownPoint)
      else if |matching| > 1 then Err(AmbiguousId)
      else Ok(matching[0])
  }

  function RootName(isRepo: bool): string { if isRepo then "repos" else "points" }

  function MountPath(p: Point): string { "/" + RootName(p.isRepo) + "/" + p.name }

  ghost predicate AcceptedPoints(points: seq<Point>) {
    UniqueNames(points) && forall p <- points :: PointProblem(p).None?
  }

  /** What the renaming leaves is what routing needs. */
  lemma NormalizedIsAccepted(users: seq<User>, k: nat, after: seq<Point>)
    requires Verdict(users).None? && k < |users| && Renamed(users[k].points, after)
    ensures AcceptedPoints(after)
  {
    var before := users[k].points;
    AcceptedIff(users);
    RenamingIsInjective(before, after);
    hide Verdict, PointProblem, Renamed;
    forall p <- after
      ensures PointProblem(p).None?
    {
      var i :| 0 <= i < |after| && after[i] == p;
      SameLength(before, after);
      assert before[i] in users[k].points;
      RenamingStaysLegal(before, after, i);
    }
  }

  lemma SameLength(before: seq<Point>, after: seq<Point>)
    requires Renamed(before, after)
    ensures |after| == |before|
  {
  }

  lemma {:induction false} FindPointIs(points: seq<Point>, i: nat)
    requires UniqueNames(points) && i < |points|
    ensures FindPoint(points, points[i].name, points[i].isRepo) == Some(points[i])
  {
    if i > 0 {
      FindPointIs(points[1..], i - 1);
    }
  }

  lemma {:induction false} FoundPoint(points: seq<Point>, name: string, isRepo: bool)
    ensures FindPoint(points, name, isRepo).Some? ==>
      exists i :: 0 <= i < |points| && points[i] == FindPoint(points, name, isRepo).value
                  && points[i].name == name && points[i].isRepo == isRepo
  {
    if points == [] {
    } else if points[0].name == name && points[0].isRepo == isRepo {
      assert points[0] == FindPoint(points, name, isRepo).value;
    } else if FindPoint(points, name, isRepo).Some? {
      FoundPoint(points[1..], name, isRepo);
      var i :| 0 <= i < |points[1..]| && points[1..][i] == FindPoint(points[1..], name, isRepo).value
               && points[1..][i].name == name && points[1..][i].isRepo == isRepo;
      assert points[i + 1] == points[1..][i];
    }
  }

  lemma MountSegments(p: Point)
    requires PointProblem(p).None?
    ensures Segments(MountPath(p)) == [RootName(p.isRepo), p.name]
    ensures Clean([RootName(p.isRepo), p.name]) && Rooted(MountPath(p))
  {
    var segs := [RootName(p.isRepo), p.name];
    assert SlashFree(p.name) && '\\' !in p.name;
    assert Text(segs) == MountPath(p) by {
      assert segs[1..] == [p.name] && segs[1..][1..] == [];
      assert Text(segs[1..]) == "/" + p.name;
    }
    assert Clean(segs);
    hide Unsafe, RootName, MountPath, Text;
    SegmentsOfText(segs, "");
    assert Text(segs) + "" == Text(segs);
    NormalizeIsText(Text(segs));
  }

  /** Points that could be opened are mounted, each on its own path; the others
      are left out. */
  ghost predicate TableOf(points: seq<Point>, healthy: seq<bool>, mounts: Table)
    requires |healthy| == |points|
  {
    && (forall k <- mounts :: exists i :: 0 <= i < |points| && healthy[i] && k == MountPath(points[i]))
    && (forall i :: 0 <= i < |points| && healthy[i] ==>
          && MountPath(points[i]) in mounts
          && mounts[MountPath(points[i])] == Mounted(points[i].id, points[i].isRepo, None))
  }

  function ToMount(points: seq<Point>, healthy: seq<bool>): (r: seq<Pending>)
    requires |healthy| == |points|
  {
    if points == [] then []
    else
      var n := |points| - 1;
      ToMount(points[..n], healthy[..n])
      + if healthy[n] then [Entry(points[n])] else []
  }

  /** An accepted configuration never makes the builder fail. */
  method ComposeVfs(points: seq<Point>, healthy: seq<bool>) returns (r: Result<Table, BuildError>)
    requires |healthy| == |points| && AcceptedPoints(points)
    ensures r.Ok? && TableOf(points, healthy, r.value)
  {
    var builder := new VfsBuilder();
    for i := 0 to |points|
      invariant builder.Valid() && fresh(builder)
      invariant builder.pending == ToMount(points[..i], healthy[..i])
    {
      hide MountPath, Normalize, PointProblem;
      assert points[..i + 1][..i] == points[..i] && healthy[..i + 1][..i] == healthy[..i];
      if healthy[i] {
        assert points[i] in points;
        MountSegments(points[i]);
        builder.Mount(MountPath(points[i]), points[i].id);
        if points[i].isRepo {
          builder.ReadOnly();
        }
      }
    }
    assert points[..|points|] == points && healthy[..|points|] == healthy;
    ToMountIsBuildable(points, healthy);
    r := builder.Build();
    HoldsTable(points, healthy, r.value);
  }

  function Entry(p: Point): Pending { Pending(MountPath(p), Mounted(p.id, p.isRepo, None)) }

  lemma {:induction false} ToMountHas(points: seq<Point>, healthy: seq<bool>)
    requires |healthy| == |points|
    ensures forall e :: e in ToMount(points, healthy) <==>
              exists i :: 0 <= i < |points| && healthy[i] && e == Entry(points[i])
  {
    if points != [] {
      var n := |points| - 1;
      var p, h := points[..n], healthy[..n];
      ToMountHas(p, h);
      assert forall i :: 0 <= i < n ==> p[i] == points[i] && h[i] == healthy[i];
      forall e | e in ToMount(points, healthy)
        ensures exists i :: 0 <= i < |points| && healthy[i] && e == Entry(points[i])
      {
        if e in ToMount(p, h) {
          var i :| 0 <= i < n && h[i] && e == Entry(p[i]);
          assert points[i] == p[i];
        }
      }
      forall i | 0 <= i < |points| && healthy[i]
        ensures Entry(points[i]) in ToMount(points, healthy)
      {
        if i < n {
          assert Entry(p[i]) in ToMount(p, h);
        }
      }
    }
  }

  lemma MountPathIsInjective(p: Point, q: Point)
    requires PointProblem(p).None? && PointProblem(q).None? && MountPath(p) == MountPath(q)
    ensures p.isRepo == q.isRepo && p.name == q.name
  {
    MountSegments(p);
    MountSegments(q);
    assert [RootName(p.isRepo), p.name][1] == [RootName(q.isRepo), q.name][1];
    assert [RootName(p.isRepo), p.name][0] == [RootName(q.isRepo), q.name][0];
  }

  lemma MountPathsDiffer(points: seq<Point>, i: nat, j: nat)
    requires AcceptedPoints(points) && i < j < |points|
    ensures MountPath(points[i]) != MountPath(points[j])
  {
    assert points[i] in points && points[j] in points;
    hide MountPath, PointProblem;
    if MountPath(points[i]) == MountPath(points[j]) {
      MountPathIsInjective(points[i], points[j]);
    }
  }

  lemma OneMoreToMount(points: seq<Point>, healthy: seq<bool>)
    requires |healthy| == |points| && points != []
    ensures var n := |points| - 1;
            ToMount(points, healthy)
            == ToMount(points[..n], healthy[..n]) + if healthy[n] then [Entry(points[n])] else []
  {
  }

  lemma {:induction false} ToMountIsBuildable(points: seq<Point>, healthy: seq<bool>)
    requires |healthy| == |points| && AcceptedPoints(points)
    ensures Buildable(ToMount(points, healthy))
  {
    if points != [] {
      var n := |points| - 1;
      var p, h := points[..n], healthy[..n];
      assert forall x <- p :: x in points;
      ToMountIsBuildable(p, h);
      ToMountHas(p, h);
      assert points[n] in points;
      MountSegments(points[n]);
      hide PointProblem, MountPath, Normalize, Segments, ToMount;
      forall e <- ToMount(p, h)
        ensures e.path != MountPath(points[n])
      {
        var i :| 0 <= i < n && h[i] && e == Entry(p[i]);
        MountPathsDiffer(points, i, n);
      }
      hide UniqueNames, AcceptedPoints, Buildable;
      BuildableWith(ToMount(p, h), Entry(points[n]));
      OneMoreToMount(points, healthy);
      assert ToMount(p, h) + [] == ToMount(p, h);
    }
  }

  lemma HoldsTable(points: seq<Point>, healthy: seq<bool>, mounts: Table)
    requires |healthy| == |points| && HoldsExactly(mounts, ToMount(points, healthy))
    ensures TableOf(points, healthy, mounts)
  {
    hide MountPath, ToMount;
    ToMountHas(points, healthy);
    var pending := ToMount(points, healthy);
    forall k <- mounts
      ensures exists i :: 0 <= i < |points| && healthy[i] && k == MountPath(points[i])
    {
      var j :| 0 <= j < |pending| && k == pending[j].path;
      assert pending[j] in pending;
    }
    forall i | 0 <= i < |points| && healthy[i]
      ensures MountPath(points[i]) in mounts
      ensures mounts[MountPath(points[i])] == Mounted(points[i].id, points[i].isRepo, None)
    {
      assert Entry(points[i]) in pending;
    }
  }

  // ── The two parsers ───────────────────────────────────────────────────────

  /** The virtual path a client's path stands for. */
  function ResolveFilePath(points: seq<Point>, path: FilePath): Result<string, PathError> {
    match path
    case Blank => Err(BlankPath)
    case Virtual(p) =>
      var v := Validated(p);
      if v.None? then Err(IllegalPath) else Ok(if v.value == "" then "/" else "/" + v.value)
    case Indexed(id, rel) =>
      var found := FindPointId(points, id);
      if found.Err? then Err(found.error)
      else
        var v := Validated(rel);
        if v.None? then Err(IllegalPath)
        else Ok(if v.value == "" then MountPath(found.value) else MountPath(found.value) + "/" + v.value)
  }

  /** The point a virtual path names, and the path below it. */
  function ResolvePointPath(points: seq<Point>, vfsPath: string): Result<(Point, string), PathError> {
    var (root, afterRoot) := Cut(TrimStart(vfsPath));
    if root != "points" && root != "repos" then Err(NotUnderRoot)
    else if afterRoot.None? then Err(NoPointName)
    else
      var (name, afterName) := Cut(afterRoot.value);
      if name == "" then Err(NoPointName)
      else
        var rest := Validated(if afterName.Some? then afterName.value else "");
        if rest.None? then Err(IllegalPath)
        else
          var p := FindPoint(points, name, root == "repos");
          if p.None? then Err(UnknownPoint) else Ok((p.value, rest.value))
  }

  /** The form handed to the storage: one leading slash, a trailing one for
      directories only. */
  function FixPath(p: string, isDir: bool): string {
    var r := if p != "" && p[0] == '/' then p else "/" + p;
    Forward(if isDir && !EndsInSlash(r) then r + "/"
            else if !isDir && EndsInSlash(r) then r[..|r| - 1] else r)
  }

  function TextOrRoot(segs: seq<string>): string { if segs == [] then "/" else Text(segs) }

  /** The segments of an accepted path. */
  function AcceptedSegments(points: seq<Point>, path: FilePath): seq<string>
    requires ResolveFilePath(points, path).Ok?
  {
    match path
    case Virtual(p) => Components(p)
    case Indexed(id, rel) =>
      var p := FindPointId(points, id).value;
      [RootName(p.isRepo), p.name] + Components(rel)
  }

  lemma {:induction false} WithIdIs(points: seq<Point>, id: Id)
    ensures forall p <- WithId(points, id) :: p in points && p.id == id
    ensures forall p <- points :: p.id == id ==> p in WithId(points, id)
  {
    if points != [] {
      WithIdIs(points[1..], id);
      assert forall p <- points :: p == points[0] || p in points[1..];
    }
  }

  lemma {:induction false} WithIdCount(points: seq<Point>, id: Id)
    ensures |WithId(points, id)| >= 1 <==> exists i :: 0 <= i < |points| && points[i].id == id
    ensures |WithId(points, id)| >= 2 <==>
              exists i, j :: 0 <= i < j < |points| && points[i].id == id && points[j].id == id
  {
    if points != [] {
      var rest := points[1..];
      WithIdCount(rest, id);
      assert forall i :: 0 <= i < |rest| ==> rest[i] == points[i + 1];
      if j :| 1 <= j < |points| && points[j].id == id {
        assert rest[j - 1].id == id;
      }
      if i, j :| 1 <= i < j < |points| && points[i].id == id && points[j].id == id {
        assert rest[i - 1].id == id && rest[j - 1].id == id;
      }
      if i, j :| 0 <= i < j < |rest| && rest[i].id == id && rest[j].id == id {
        assert points[i + 1].id == id && points[j + 1].id == id;
      }
    }
  }

  /** An identifier finds the one point that has it; none, or two, are errors. */
  lemma FindPointIdIs(points: seq<Point>, id: Option<Id>)
    ensures FindPointId(points, id) == Err(MalformedId) <==> id.None?
    ensures id.Some? ==>
              && (FindPointId(points, id) == Err(UnknownPoint) <==> forall p <- points :: p.id != id.value)
              && (FindPointId(points, id) == Err(AmbiguousId) <==>
                    exists i, j :: 0 <= i < j < |points| && points[i].id == id.value && points[j].id == id.value)
              && (FindPointId(points, id).Ok? ==>
                    FindPointId(points, id).value in points && FindPointId(points, id).value.id == id.value)
  {
    if id.Some? {
      WithIdCount(points, id.value);
      WithIdIs(points, id.value);
    }
  }

  /** A client's path is refused exactly when it is blank, has a parent component, or
      its identifier finds no point. */
  lemma RefusedPathIff(points: seq<Point>, path: FilePath)
    ensures ResolveFilePath(points, path).Err? <==>
              match path
              case Blank => true
              case Virtual(p) => ".." in Split(Forward(p))
              case Indexed(id, rel) => FindPointId(points, id).Err? || ".." in Split(Forward(rel))
    ensures path.Blank? ==> ResolveFilePath(points, path) == Err(BlankPath)
    ensures path.Indexed? && FindPointId(points, path.id).Err? ==>
              ResolveFilePath(points, path) == Err(FindPointId(points, path.id).error)
  {
  }

  lemma JoinIsEmptyIff(segs: seq<string>)
    requires Clean(segs)
    ensures Join(segs) == "" <==> segs == []
  {
    JoinNothing();
    if segs != [] {
      CleanEnds(segs);
      EndsOfJoin(segs);
    }
  }

  lemma CleanEnds(segs: seq<string>)
    requires Clean(segs) && segs != []
    ensures segs[0] != "" && segs[|segs| - 1] != ""
  {
    assert segs[0] in segs && segs[|segs| - 1] in segs;
  }

  /** Whatever is accepted is the text of clean segments. */
  lemma AcceptedShape(points: seq<Point>, path: FilePath)
    requires AcceptedPoints(points) && ResolveFilePath(points, path).Ok?
    ensures Clean(AcceptedSegments(points, path))
    ensures ResolveFilePath(points, path).value == TextOrRoot(AcceptedSegments(points, path))
    ensures path.Indexed? ==> path.id.Some? && FindPointId(points, path.id).value in points
  {
    var rel := if path.Virtual? then path.path else path.rel;
    ComponentsAreClean(rel);
    JoinIsEmptyIff(Components(rel));
    if Components(rel) != [] {
      JoinStep(Components(rel));
    }
    if path.Indexed? {
      WithIdIs(points, path.id.value);
      IndexedShape(FindPointId(points, path.id).value, Components(rel));
    }
  }

  lemma IndexedShape(p: Point, rel: seq<string>)
    requires PointProblem(p).None? && Clean(rel)
    ensures Clean([RootName(p.isRepo), p.name] + rel)
    ensures Text([RootName(p.isRepo), p.name] + rel)
            == if rel == [] then MountPath(p) else MountPath(p) + "/" + Join(rel)
  {
    hide MountPath, Join, Text, Segments, RootName, Rooted;
    var top := [RootName(p.isRepo), p.name];
    MountSegments(p);
    assert Text(top) == MountPath(p) by { RootedText(MountPath(p)); }
    UnderMount(top, rel);
  }

  lemma UnderMount(top: seq<string>, rel: seq<string>)
    requires Clean(top) && Clean(rel)
    ensures Clean(top + rel) && Text(top + rel) == if rel == [] then Text(top) else Text(top) + "/" + Join(rel)
  {
    hide Join, Text;
    TextAppend(top, rel);
    if rel != [] {
      JoinStep(rel);
    } else {
      assert top + rel == top;
    }
  }

  /** What the permission parser makes of clean segments. */
  lemma PointOfSegments(points: seq<Point>, segs: seq<string>)
    requires Clean(segs)
    ensures ResolvePointPath(points, TextOrRoot(segs))
            == if segs == [] || (segs[0] != "points" && segs[0] != "repos") then Err(NotUnderRoot)
               else if |segs| == 1 then Err(NoPointName)
               else
                 var p := FindPoint(points, segs[1], segs[0] == "repos");
                 if p.None? then Err(UnknownPoint) else Ok((p.value, Join(segs[2..])))
  {
    if segs == [] {
      assert TrimStart("/") == "";
      CutAt("", None);
    } else {
      CleanEnds(segs);
      CutHead(segs);
      hide Cut, Join, Text, TrimStart, Validated, Components;
      if |segs| > 1 {
        assert segs[1..][0] == segs[1] && segs[1..][1..] == segs[2..];
        CleanTail(segs);
        CutTail(segs[1..]);
        CleanIsFixed(segs[2..]);
        JoinNothing();
      }
    }
  }

  lemma CleanTail(segs: seq<string>)
    requires Clean(segs) && |segs| > 1
    ensures segs[1] != "" && AllSlashFree(segs[1..]) && Clean(segs[2..])
  {
    assert segs[1] in segs;
    assert forall s <- segs[2..] :: s in segs;
  }

  lemma CutHead(segs: seq<string>)
    requires segs != [] && AllSlashFree(segs) && segs[0] != "" && segs[|segs| - 1] != ""
    ensures Cut(TrimStart(Text(segs))) == (segs[0], if |segs| == 1 then None else Some(Join(segs[1..])))
  {
    CutTail(segs);
    EndsOfJoin(segs);
    JoinStep(segs);
    assert ("/" + Join(segs))[1..] == Join(segs);
    hide Cut, Join, Text;
  }

  /** The form handed to the storage keeps the segments. */
  lemma FixedSegments(segs: seq<string>, isDir: bool)
    requires Clean(segs)
    ensures Segments(FixPath(TextOrRoot(segs), isDir)) == segs
    ensures segs != [] ==> (EndsInSlash(FixPath(TextOrRoot(segs), isDir)) <==> isDir)
  {
    if segs == [] {
      assert FixPath("/", isDir) == if isDir then "/" else "";
      assert TrimStart("/") == "";
    } else {
      hide Join, Text, FixPath, Segments;
      FixedText(segs, isDir);
      CleanEnds(segs);
      SegmentsOfText(segs, if isDir then "/" else "");
    }
  }

  lemma FixedText(segs: seq<string>, isDir: bool)
    requires Clean(segs) && segs != []
    ensures FixPath(Text(segs), isDir) == Text(segs) + if isDir then "/" else ""
    ensures EndsInSlash(FixPath(Text(segs), isDir)) <==> isDir
  {
    hide Join, Text, FixPath;
    CleanEnds(segs);
    NoBackslash(segs);
    EndsOfJoin(segs);
    JoinStep(segs);
    FixText(Join(segs), isDir);
  }

  lemma FixText(j: string, isDir: bool)
    requires j != "" && !EndsInSlash(j) && '\\' !in j
    ensures FixPath("/" + j, isDir) == "/" + j + if isDir then "/" else ""
    ensures EndsInSlash(FixPath("/" + j, isDir)) <==> isDir
  {
    var r := "/" + j;
    hide Forward;
    ForwardStays(r);
    ForwardStays(r + "/");
    assert r[|r| - 1] == j[|j| - 1] && r[0] == '/';
  }

  lemma ForwardStays(s: string)
    requires '\\' !in s
    ensures Forward(s) == s
  {
    assert forall i :: 0 <= i < |s| ==> s[i] in s;
  }

  ghost predicate Mountable(points: seq<Point>, healthy: seq<bool>, p: Point)
    requires |healthy| == |points|
  {
    exists i :: 0 <= i < |points| && healthy[i] && points[i] == p
  }

  function SlashIf(isDir: bool, rest: string): string { if isDir && rest != "" then rest + "/" else rest }

  /** The mounts of a configuration have two segments each, so none lies below another. */
  lemma TableIsCanonical(points: seq<Point>, healthy: seq<bool>, mounts: Table)
    requires |healthy| == |points| && AcceptedPoints(points) && TableOf(points, healthy, mounts)
    ensures CanonicalTable(mounts) && forall k <- mounts :: |Segments(k)| == 2
  {
    hide Segments, MountPath, PointProblem, Normalize;
    forall k <- mounts
      ensures Rooted(k) && AllNonEmpty(Segments(k)) && |Segments(k)| == 2
    {
      var i :| 0 <= i < |points| && healthy[i] && k == MountPath(points[i]);
      assert points[i] in points;
      MountSegments(points[i]);
      CleanAll([RootName(points[i].isRepo), points[i].name]);
    }
  }

  lemma CleanAll(segs: seq<string>)
    requires Clean(segs)
    ensures AllNonEmpty(segs)
  {
    forall i | 0 <= i < |segs|
      ensures segs[i] != ""
    {
      assert segs[i] in segs;
    }
  }

  /** Segments are routed to a mounted point exactly when the permission parser
      finds that point, and with the same path below it. */
  lemma RouteOfSegments(points: seq<Point>, healthy: seq<bool>, mounts: Table, segs: seq<string>, path: string,
                        isDir: bool)
    requires |healthy| == |points| && AcceptedPoints(points) && TableOf(points, healthy, mounts)
    requires Clean(segs) && Segments(path) == segs && (segs != [] ==> (EndsInSlash(path) <==> isDir))
    ensures var found := ResolvePointPath(points, TextOrRoot(segs));
            ResolvePath(mounts, path)
            == if found.Ok? && Mountable(points, healthy, found.value.0)
               then Some(Route(MountPath(found.value.0), Mounted(found.value.0.id, found.value.0.isRepo, None),
                               SlashIf(isDir, found.value.1)))
               else None
  {
    var found := ResolvePointPath(points, TextOrRoot(segs));
    PointOfSegments(points, segs);
    TableIsCanonical(points, healthy, mounts);
    hide ResolvePointPath, ResolvePath, Segments, MountPath, PointProblem, Join, Normalize;
    if found.Ok? && Mountable(points, healthy, found.value.0) {
      MountedRoute(points, healthy, mounts, segs, path, isDir);
    } else {
      forall k <- mounts
        ensures !(Segments(k) <= segs)
      {
        if Segments(k) <= segs {
          ClaimedOnlyIfFound(points, healthy, mounts, segs, k);
        }
      }
      NoRouteIff(mounts, path);
    }
  }

  lemma MountedRoute(points: seq<Point>, healthy: seq<bool>, mounts: Table, segs: seq<string>, path: string,
                     isDir: bool)
    requires |healthy| == |points| && AcceptedPoints(points) && TableOf(points, healthy, mounts)
    requires Clean(segs) && Segments(path) == segs && |segs| >= 2 && (EndsInSlash(path) <==> isDir)
    requires segs[0] == "points" || segs[0] == "repos"
    requires var p := FindPoint(points, segs[1], segs[0] == "repos"); p.Some? && Mountable(points, healthy, p.value)
    ensures var p := FindPoint(points, segs[1], segs[0] == "repos").value;
            ResolvePath(mounts, path)
            == Some(Route(MountPath(p), Mounted(p.id, p.isRepo, None), SlashIf(isDir, Join(segs[2..]))))
  {
    var p := FindPoint(points, segs[1], segs[0] == "repos").value;
    MountOf(points, segs);
    TableIsCanonical(points, healthy, mounts);
    hide ResolvePath, Segments, MountPath, PointProblem, CanonicalTable, UniqueNames, FindPoint, Join;
    RouteToSecond(mounts, MountPath(p), segs, path);
  }

  lemma RouteToSecond(mounts: Table, k: string, segs: seq<string>, path: string)
    requires CanonicalTable(mounts) && forall j <- mounts :: |Segments(j)| == 2
    requires k in mounts && Clean(segs) && |segs| >= 2 && Segments(path) == segs && Segments(k) == segs[..2]
    ensures ResolvePath(mounts, path) == Some(Route(k, mounts[k], SlashIf(EndsInSlash(path), Join(segs[2..]))))
  {
    hide ResolvePath, Segments, Join, TrimStart, Rooted, AllNonEmpty;
    RouteIs(mounts, path, k);
    assert forall s <- segs[2..] :: s in segs;
    TailStays(segs[2..]);
  }

  lemma MountOf(points: seq<Point>, segs: seq<string>)
    requires AcceptedPoints(points) && |segs| >= 2 && (segs[0] == "points" || segs[0] == "repos")
    requires FindPoint(points, segs[1], segs[0] == "repos").Some?
    ensures var p := FindPoint(points, segs[1], segs[0] == "repos").value;
            && p in points && RootName(p.isRepo) == segs[0] && p.name == segs[1]
            && Segments(MountPath(p)) == segs[..2]
  {
    var p := FindPoint(points, segs[1], segs[0] == "repos").value;
    FoundPoint(points, segs[1], segs[0] == "repos");
    assert p in points;
    hide FindPoint, UniqueNames, PointProblem, Segments, MountPath;
    MountSegments(p);
    assert segs[..2] == [segs[0], segs[1]];
  }

  lemma TailStays(segs: seq<string>)
    requires forall s <- segs :: s != ""
    requires AllSlashFree(segs)
    ensures TrimStart(Join(segs)) == Join(segs)
  {
    if segs != [] {
      assert segs[0] in segs && segs[|segs| - 1] in segs;
      EndsOfJoin(segs);
    }
  }

  lemma ClaimedOnlyIfFound(points: seq<Point>, healthy: seq<bool>, mounts: Table, segs: seq<string>, k: string)
    requires |healthy| == |points| && AcceptedPoints(points) && TableOf(points, healthy, mounts)
    requires k in mounts && Segments(k) <= segs
    ensures |segs| >= 2 && (segs[0] == "points" || segs[0] == "repos")
    ensures var p := FindPoint(points, segs[1], segs[0] == "repos"); p.Some? && Mountable(points, healthy, p.value)
  {
    hide Segments, MountPath, PointProblem;
    var i :| 0 <= i < |points| && healthy[i] && k == MountPath(points[i]);
    assert points[i] in points;
    MountSegments(points[i]);
    assert segs[0] == Segments(k)[0] && segs[1] == Segments(k)[1];
    FindPointIs(points, i);
  }

  /** For every path a client can send: the mount table serves it exactly when the
      permission parser finds a point and that point is mounted, and then it is
      that point's storage, read-only for a repository, with the same path below. */
  lemma ParsersAgree(points: seq<Point>, healthy: seq<bool>, mounts: Table, path: FilePath, isDir: bool)
    requires |healthy| == |points| && AcceptedPoints(points) && TableOf(points, healthy, mounts)
    requires ResolveFilePath(points, path).Ok?
    ensures var vfs := ResolveFilePath(points, path).value;
            var found := ResolvePointPath(points, vfs);
            ResolvePath(mounts, FixPath(vfs, isDir))
            == if found.Ok? && Mountable(points, healthy, found.value.0)
               then Some(Route(MountPath(found.value.0), Mounted(found.value.0.id, found.value.0.isRepo, None),
                               SlashIf(isDir, found.value.1)))
               else None
  {
    var segs := AcceptedSegments(points, path);
    AcceptedShape(points, path);
    FixedSegments(segs, isDir);
    hide ResolvePointPath, ResolvePath, Segments, MountPath, PointProblem, FixPath, ResolveFilePath, AcceptedSegments;
    RouteOfSegments(points, healthy, mounts, segs, FixPath(TextOrRoot(segs), isDir), isDir);
  }

  // ── White space around a path ─────────────────────────────────────────────

  predicate White(c: char) {
    || '\t' <= c <= '\r' || c == ' ' || c == '\U{85}' || c == '\U{A0}' || c == '\U{1680}'
    || '\U{2000}' <= c <= '\U{200A}' || c == '\U{2028}' || c == '\U{2029}'
    || c == '\U{202F}' || c == '\U{205F}' || c == '\U{3000}'
  }

  /** The characters with the Unicode property White_Space. */
  const WHITE := "\t\n\U{B}\U{C}\r \U{85}\U{A0}\U{1680}"
                 + "\U{2000}\U{2001}\U{2002}\U{2003}\U{2004}\U{2005}\U{2006}\U{2007}\U{2008}\U{2009}\U{200A}"
                 + "\U{2028}\U{2029}\U{202F}\U{205F}\U{3000}"

  lemma WhiteIff(c: char)
    ensures White(c) <==> c in WHITE
  {
  }

  /** What a storage library does that trims white space around every path. */
  function TrimWhite(s: string): string {
    if s != "" && White(s[0]) then TrimWhite(s[1..])
    else if s != "" && White(s[|s| - 1]) then TrimWhite(s[..|s| - 1])
    else s
  }

  /** An accepted path is unaffected exactly when it is asked for as a directory or
      does not end in white space. */
  lemma UntrimmedIff(points: seq<Point>, path: FilePath, isDir: bool)
    requires AcceptedPoints(points) && ResolveFilePath(points, path).Ok?
    ensures var vfs := ResolveFilePath(points, path).value;
            TrimWhite(FixPath(vfs, isDir)) == FixPath(vfs, isDir) <==> isDir || !White(vfs[|vfs| - 1])
  {
    hide ResolveFilePath, AcceptedSegments, Text, FixPath, TrimWhite, White;
    var segs := AcceptedSegments(points, path);
    AcceptedShape(points, path);
    if segs == [] {
      FixedRoot();
    } else {
      FixedText(segs, isDir);
      TextStart(segs);
      TrimmedIff(Text(segs), isDir);
    }
  }

  lemma FixedRoot()
    ensures TrimWhite(FixPath("/", true)) == FixPath("/", true) && TrimWhite(FixPath("/", false)) == FixPath("/", false)
    ensures !White('/')
  {
    assert FixPath("/", true) == "/" && FixPath("/", false) == "";
  }

  lemma TextStart(segs: seq<string>)
    requires segs != []
    ensures Text(segs) != "" && Text(segs)[0] == '/'
  {
  }

  lemma TrimmedIff(t: string, isDir: bool)
    requires t != "" && t[0] == '/'
    ensures var s := t + if isDir then "/" else ""; TrimWhite(s) == s <==> isDir || !White(t[|t| - 1])
  {
    TrimmedLength(t);
    assert t + "" == t;
  }

  lemma {:induction false} TrimmedLength(s: string)
    ensures |TrimWhite(s)| <= |s|
    ensures s != "" && !White(s[0]) && White(s[|s| - 1]) ==> |TrimWhite(s)| < |s|
  {
    if s != "" {
      TrimmedLength(s[1..]);
      TrimmedLength(s[..|s| - 1]);
    }
  }

  lemma {:induction false} TrimWhiteStart(s: string)
    requires s != "" && !White(s[0])
    ensures TrimWhite(s) != "" && TrimWhite(s)[0] == s[0]
  {
    if White(s[|s| - 1]) {
      TrimWhiteStart(s[..|s| - 1]);
    }
  }

  lemma FoundLength(points: seq<Point>, path: FilePath)
    requires AcceptedPoints(points) && ResolveFilePath(points, path).Ok?
    requires ResolvePointPath(points, ResolveFilePath(points, path).value).Ok?
    ensures var vfs := ResolveFilePath(points, path).value;
            var (p, rest) := ResolvePointPath(points, vfs).value;
            && |vfs| == |MountPath(p)| + (if rest == "" then 0 else 1 + |rest|)
            && vfs != "" && vfs[0] == '/' && FixPath(vfs, false) == vfs
  {
    hide ResolvePointPath, ResolveFilePath, AcceptedSegments, PointProblem, FixPath, Text, Join, Segments, FindPoint;
    hide MountPath, UniqueNames;
    var segs := AcceptedSegments(points, path);
    AcceptedShape(points, path);
    PointOfSegments(points, segs);
    MountOf(points, segs);
    var p := FindPoint(points, segs[1], segs[0] == "repos").value;
    FixedText(segs, false);
    TextStart(segs);
    MountText(p);
    assert segs[..2] == [RootName(p.isRepo), p.name];
    assert segs == segs[..2] + segs[2..];
    TextAppend(segs[..2], segs[2..]);
    assert Clean(segs[2..]) by { CleanTail(segs); }
    JoinIsEmptyIff(segs[2..]);
    if segs[2..] != [] {
      JoinStep(segs[2..]);
    } else {
      assert Text([]) == "" by { NoText(); }
    }
  }

  lemma NoText()
    ensures Text([]) == ""
  {
  }

  lemma MountText(p: Point)
    requires PointProblem(p).None?
    ensures Text([RootName(p.isRepo), p.name]) == MountPath(p)
  {
    MountSegments(p);
    RootedText(MountPath(p));
  }

  /** For a path whose point is found and mounted: after trimming, the mount table
      still serves what the permission parser found exactly when the path is asked
      for as a directory or does not end in white space. */
  lemma TrimmedRouteIff(points: seq<Point>, healthy: seq<bool>, mounts: Table, path: FilePath, isDir: bool)
    requires |healthy| == |points| && AcceptedPoints(points) && TableOf(points, healthy, mounts)
    requires ResolveFilePath(points, path).Ok?
    requires var found := ResolvePointPath(points, ResolveFilePath(points, path).value);
             found.Ok? && Mountable(points, healthy, found.value.0)
    ensures var vfs := ResolveFilePath(points, path).value;
            ResolvePath(mounts, TrimWhite(FixPath(vfs, isDir))) == ResolvePath(mounts, FixPath(vfs, isDir))
            <==> isDir || !White(vfs[|vfs| - 1])
  {
    hide ResolvePath, ResolvePointPath, ResolveFilePath, FixPath, TrimWhite, TableOf, AcceptedPoints, MountPath;
    var vfs := ResolveFilePath(points, path).value;
    UntrimmedIff(points, path, isDir);
    ParsersAgree(points, healthy, mounts, path, isDir);
    FoundLength(points, path);
    if !isDir && White(vfs[|vfs| - 1]) {
      assert !White('/');
      TrimWhiteStart(vfs);
      TrimmedLength(vfs);
      if ResolvePath(mounts, TrimWhite(vfs)).Some? {
        RouteLength(mounts, TrimWhite(vfs));
      }
    }
  }

  /** Two points whose names differ in a blank at the end. */
  function Blanks(a: Id, b: Id): seq<Point> { [Point(a, "x", false, None), Point(b, "x ", false, None)] }

  lemma BlanksFacts(a: Id, b: Id)
    ensures var points := Blanks(a, b);
            && AcceptedPoints(points) && MountPath(points[0]) == "/points/x" && MountPath(points[1]) == "/points/x "
  {
    var points := Blanks(a, b);
    assert MountPath(points[0]) == "/points/x" && MountPath(points[1]) == "/points/x ";
    assert "x" != "x " && forall p <- points :: p == points[0] || p == points[1];
    assert PointProblem(points[0]).None? && PointProblem(points[1]).None?;
  }

  lemma BlankIsTrimmed()
    ensures TrimWhite("/points/x ") == "/points/x"
    ensures RootName(false) + "/" + "x" == "points/x" && RootName(false) + "/" + "x " == "points/x "
  {
    assert "/points/x "[..9] == "/points/x";
  }

  /** Otherwise the parsers can part ways: with points "x" and "x " both mounted,
      the file path of the second is checked against the second and, once trimmed,
      served by the first. */
  lemma TrimmingPartsTheParsers(a: Id, b: Id, mounts: Table)
    requires TableOf(Blanks(a, b), [true, true], mounts)
    ensures var points := Blanks(a, b);
            var vfs := "/points/x ";
            && AcceptedPoints(points) && ResolveFilePath(points, Virtual("points/x ")) == Ok(vfs)
            && ResolvePointPath(points, vfs) == Ok((points[1], ""))
            && ResolvePath(mounts, TrimWhite(FixPath(vfs, false)))
               == Some(Route("/points/x", Mounted(a, false, None), ""))
  {
    BlanksFacts(a, b);
    BlankIsTrimmed();
    hide FixPath, ResolvePath, ResolvePointPath, ResolveFilePath, TableOf, AcceptedPoints, MountPath;
    hide TrimWhite, RootName;
    var points := Blanks(a, b);
    NamePath(points, 0);
    NamePath(points, 1);
    assert Mountable(points, [true, true], points[0]) by { assert [true, true][0]; }
    ParsersAgree(points, [true, true], mounts, Virtual("points/x"), false);
  }

  /** The path of a point itself. */
  lemma NamePath(points: seq<Point>, i: nat)
    requires AcceptedPoints(points) && i < |points|
    ensures var p := points[i];
            && ResolveFilePath(points, Virtual(RootName(p.isRepo) + "/" + p.name)) == Ok(MountPath(p))
            && ResolvePointPath(points, MountPath(p)) == Ok((p, ""))
            && FixPath(MountPath(p), false) == MountPath(p)
  {
    hide Text, FixPath, ResolvePointPath, PointProblem, MountPath, Segments, UniqueNames, Validated, Components;
    var p := points[i];
    var segs := [RootName(p.isRepo), p.name];
    MountSegments(p);
    assert Text(segs) == MountPath(p) by { RootedText(MountPath(p)); }
    JoinStep(segs);
    assert Join(segs) == RootName(p.isRepo) + "/" + p.name;
    CleanIsFixed(segs);
    JoinIsEmptyIff(segs);
    PointOfSegments(points, segs);
    FindPointIs(points, i);
    JoinNothing();
    FixedText(segs, false);
  }

  // ── Indexed and virtual paths ─────────────────────────────────────────────

  /** An indexed path leads back to the point with that identifier, and below it
      to the cleaned relative path. */
  lemma IndexedParsesBack(points: seq<Point>, id: Option<Id>, rel: string)
    requires AcceptedPoints(points) && ResolveFilePath(points, Indexed(id, rel)).Ok?
    ensures var found := ResolvePointPath(points, ResolveFilePath(points, Indexed(id, rel)).value);
            && found.Ok? && Some(found.value.0.id) == id
            && FindPointId(points, id) == Ok(found.value.0) && Some(found.value.1) == Validated(rel)
  {
    hide ResolvePointPath, MountPath, PointProblem, WithId, UniqueNames, Kept, Split, Join;
    var path := Indexed(id, rel);
    var segs := AcceptedSegments(points, path);
    var p := FindPointId(points, id).value;
    AcceptedShape(points, path);
    ValidatedIsJoin(points, path);
    FoundById(points, id);
    PointOfSegments(points, segs);
    hide ResolveFilePath, AcceptedSegments, FindPointId, Components, Validated, FindPoint;
    assert segs == [RootName(p.isRepo), p.name] + Components(rel) && segs[2..] == Components(rel)
      by { IndexedSegments(points, path); }
  }

  lemma IndexedSegments(points: seq<Point>, path: FilePath)
    requires path.Indexed? && ResolveFilePath(points, path).Ok?
    ensures var p := FindPointId(points, path.id).value;
            AcceptedSegments(points, path) == [RootName(p.isRepo), p.name] + Components(path.rel)
  {
  }

  lemma FoundById(points: seq<Point>, id: Option<Id>)
    requires UniqueNames(points) && FindPointId(points, id).Ok?
    ensures var p := FindPointId(points, id).value;
            Some(p.id) == id && FindPoint(points, p.name, p.isRepo) == Some(p)
  {
    var p := FindPointId(points, id).value;
    WithIdIs(points, id.value);
    var i :| 0 <= i < |points| && points[i] == p;
    FindPointIs(points, i);
  }

  lemma ValidatedIsJoin(points: seq<Point>, path: FilePath)
    requires path.Indexed? && ResolveFilePath(points, path).Ok?
    ensures Validated(path.rel) == Some(Join(Components(path.rel)))
  {
  }

  lemma {:induction false} NoneWithId(points: seq<Point>, id: Id)
    requires forall q <- points :: q.id != id
    ensures WithId(points, id) == []
  {
    if points != [] {
      NoneWithId(points[1..], id);
    }
  }

  lemma {:induction false} WithIdOnce(points: seq<Point>, p: Point)
    requires p in points && forall i, j :: 0 <= i < j < |points| ==> points[i].id != points[j].id
    ensures WithId(points, p.id) == [p]
  {
    WithIdIs(points[1..], p.id);
    if points[0] == p {
      forall q <- points[1..]
        ensures q.id != p.id
      {
        var i :| 0 <= i < |points[1..]| && points[1..][i] == q;
        assert points[i + 1] == q;
      }
      NoneWithId(points[1..], p.id);
    } else {
      WithIdOnce(points[1..], p);
    }
  }

  /** And back: a virtual path that names a point is the same as the indexed path
      of that point with what lies below it. */
  lemma VirtualIsIndexed(points: seq<Point>, path: string)
    requires AcceptedPoints(points) && ResolveFilePath(points, Virtual(path)).Ok?
    requires forall i, j :: 0 <= i < j < |points| ==> points[i].id != points[j].id
    requires ResolvePointPath(points, ResolveFilePath(points, Virtual(path)).value).Ok?
    ensures var vfs := ResolveFilePath(points, Virtual(path)).value;
            var (p, rest) := ResolvePointPath(points, vfs).value;
            ResolveFilePath(points, Indexed(Some(p.id), rest)) == Ok(vfs)
  {
    var segs := AcceptedSegments(points, Virtual(path));
    AcceptedShape(points, Virtual(path));
    PointOfSegments(points, segs);
    hide ResolvePointPath;
    MountOf(points, segs);
    var p := FindPoint(points, segs[1], segs[0] == "repos").value;
    WithIdOnce(points, p);
    PrintsBack(points, p, segs);
    hide MountPath, PointProblem, Validated, WithId, Text, Join, Segments, FindPoint;
  }

  lemma PrintsBack(points: seq<Point>, p: Point, segs: seq<string>)
    requires Clean(segs) && |segs| >= 2 && segs[0] == RootName(p.isRepo) && segs[1] == p.name
    requires PointProblem(p).None? && WithId(points, p.id) == [p]
    ensures ResolveFilePath(points, Indexed(Some(p.id), Join(segs[2..]))) == Ok(Text(segs))
  {
    hide MountPath, PointProblem, Validated, WithId, Text, Join, RootName;
    var rel := segs[2..];
    assert Clean(rel);
    assert segs == [RootName(p.isRepo), p.name] + rel;
    CleanIsFixed(rel);
    IndexedShape(p, rel);
    JoinIsEmptyIff(rel);
  }
}