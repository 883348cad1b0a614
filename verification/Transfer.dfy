/** Copying and moving a file or a directory tree between two paths of a user's
    virtual file system, under short reads, cancellation and I/O failure. */
module Transfer {
  import opened Prelude

  type Path = string

  const SPOOL_CHUNK: nat := 8388608

  /** A file with its contents, or a directory (whose path ends in a slash). */
  datatype Node = File(bytes: seq<int>) | Dir

  type Tree = map<Path, Node>

  datatype Entry = Entry(path: Path, isDir: bool, length: nat)

  /** `native`: both paths lie in one mount of one backend. */
  datatype Plan = Plan(src: Path, dst: Path, isDir: bool, entries: seq<Entry>, total: nat,
                       copy: bool, native: bool)
  {
    /** Paths of the transferred file or tree. */
    predicate Source(p: Path) { Within(src, isDir, p) }

    /** Paths the job creates. */
    predicate Owned(p: Path) { Within(dst, isDir, p) }

    function Rebase(p: Path): (q: Path)
      requires Source(p)
      ensures Owned(q)
    {
      if isDir then WithSlash(dst) + p[|WithSlash(src)|..] else dst
    }

    function Unbase(q: Path): (p: Path)
      requires Owned(q)
      ensures Source(p)
    {
      if isDir then WithSlash(src) + q[|WithSlash(dst)|..] else src
    }
  }

  predicate Within(root: Path, isDir: bool, p: Path) { if isDir then WithSlash(root) <= p else p == root }

  function WithSlash(path: Path): Path {
    if path != "" && path[|path| - 1] == '/' then path else path + "/"
  }

  /** Rebasing keeps the path below the directory. */
  lemma RebaseKeepsRest(plan: Plan, rest: Path)
    ensures plan.isDir ==> plan.Rebase(WithSlash(plan.src) + rest) == WithSlash(plan.dst) + rest
    ensures !plan.isDir ==> plan.Rebase(plan.src) == plan.dst
  {
  }

  lemma RebaseInverts(plan: Plan, p: Path, q: Path)
    requires plan.Source(p) && plan.Owned(q)
    ensures plan.Unbase(plan.Rebase(p)) == p && plan.Rebase(plan.Unbase(q)) == q
  {
  }

  // ── Admission ─────────────────────────────────────────────────────────────

  /** What a stat with and without trailing slash can find. */
  predicate Exists(t: Tree, p: Path) { p in t || exists q :: q in t && WithSlash(p) <= q }

  /** The listing names every node of the source tree once and truly; it may
      leave out the root. */
  ghost predicate Faithful(t: Tree, plan: Plan) {
    && (forall i, j :: 0 <= i < j < |plan.entries| ==> plan.entries[i].path != plan.entries[j].path)
    && (forall e :: e in plan.entries ==>
          && plan.Source(e.path) && e.path in t
          && (if e.isDir then t[e.path].Dir? else t[e.path].File? && e.length == |t[e.path].bytes|))
    && (forall p :: p in t && plan.Source(p) && p != WithSlash(plan.src) ==>
          exists i :: 0 <= i < |plan.entries| && plan.entries[i].path == p)
    && (WithSlash(plan.src) in t ==> t[WithSlash(plan.src)].Dir?)
  }

  function SumLengths(entries: seq<Entry>): nat {
    if entries == [] then 0
    else SumLengths(entries[..|entries| - 1])
         + if entries[|entries| - 1].isDir then 0 else entries[|entries| - 1].length
  }

  /** One end of a transfer: where its point lies, and the path below that. A root
      names the device or bucket too and ends in a slash, so that two points on one
      disk are two views of the same paths. */
  datatype End = End(root: Path, rel: Path)
  {
    function Place(): Path { root + rel }
  }

  /** The checks made before a job starts, for a source that was found. The
      self-transfer check compares the paths below one point; it is not made
      between points. */
  ghost predicate Admitted(t: Tree, plan: Plan, from: End, to: End, samePoint: bool) {
    && plan.src == from.Place() && plan.dst == to.Place()
    && (samePoint ==> from.root == to.root) && (plan.native ==> samePoint)
    && !Exists(t, plan.dst)
    && (plan.isDir ==> plan.src == WithSlash(plan.src) && plan.dst == WithSlash(plan.dst))
    && (if plan.isDir
        then Exists(t, plan.src) && Faithful(t, plan) && plan.total == SumLengths(plan.entries)
        else plan.src in t && t[plan.src].File? && plan.total == |t[plan.src].bytes|)
    && (samePoint ==> from.rel != to.rel)
    && (plan.isDir && samePoint ==> !(from.rel <= to.rel))
  }

  datatype Refusal =
    | Denied | SourceMissing | NotADirectory | IsADirectory | AlreadyExists | Identical | IntoItself

  /** What the stats of a path find: a file, a directory, or nothing. */
  function KindAt(t: Tree, p: Path): Option<bool> {
    if p in t && t[p].File? then Some(false) else if Exists(t, p) then Some(true) else None
  }

  /** A file is a file; a directory is what is stored as one or has anything below it;
      and nothing else is there. */
  lemma KindAtIs(t: Tree, p: Path)
    requires WellNamed(t)
    ensures KindAt(t, p) == Some(false) <==> p in t && t[p].File?
    ensures KindAt(t, p) == Some(true) <==>
              !(p in t && t[p].File?) && exists q :: q in t && WithSlash(p) <= q
    ensures KindAt(t, p).None? <==> p !in t && !exists q :: q in t && WithSlash(p) <= q
  {
  }

  /** Who may write where: the destination must be writable, and for a move the source
      too, which a repository never is. */
  datatype Rights = Rights(dstWritable: bool, srcIsRepo: bool, srcWritable: bool)

  function Fitted(e: End, isDir: bool): End { if isDir && e.rel != "" then End(e.root, WithSlash(e.rel)) else e }

  /** Paths as requests give them: below a root, without a slash at the end. */
  predicate Plain(e: End) { WithSlash(e.root) == e.root && (e.rel == "" || e.rel[|e.rel| - 1] != '/') }

  /** Directories, and only they, have a slash at the end. */
  ghost predicate WellNamed(t: Tree) { forall p <- t :: t[p].Dir? <==> WithSlash(p) == p }

  /** The checks of a transfer request, in their order, and the plan of its job;
      `listing` is what the backend lists below a source directory. Whatever is
      refused, nothing has been touched. */
  method PlanTransfer(t: Tree, from: End, to: End, samePoint: bool, sameBackend: bool, copy: bool, rights: Rights,
                      listing: seq<Entry>)
    returns (r: Result<Plan, Refusal>, quotaCheck: bool)
    requires samePoint ==> from.root == to.root
    requires Plain(from) && Plain(to) && WellNamed(t)
    ensures r.Ok? <==>
              && rights.dstWritable && (copy || (!rights.srcIsRepo && rights.srcWritable))
              && KindAt(t, from.Place()).Some? && KindAt(t, to.Place()).None?
              && !(KindAt(t, from.Place()) == Some(true) && samePoint && Fitted(from, true).rel <= Fitted(to, true).rel)
    ensures r.Ok? ==>
              var isDir := KindAt(t, from.Place()).value;
              var total := if isDir then SumLengths(listing) else |t[from.Place()].bytes|;
              && r.value == PlanOf(from, to, isDir, listing, if isDir then Min(total, U64_MAX) else total, copy,
                                   sameBackend && samePoint)
              && ((isDir ==> total <= U64_MAX && Faithful(t, r.value)) ==>
                    Admitted(t, r.value, Fitted(from, isDir), Fitted(to, isDir), samePoint))
              && r.value.src == (if isDir && from.rel != "" then from.root + (from.rel + "/") else from.root + from.rel)
              && r.value.dst == (if isDir && to.rel != "" then to.root + (to.rel + "/") else to.root + to.rel)
              && r.value.isDir == isDir && r.value.copy == copy && r.value.native == (sameBackend && samePoint)
              && quotaCheck == (copy || !samePoint)
    ensures r == Err(Denied) <==> !rights.dstWritable || (!copy && (rights.srcIsRepo || !rights.srcWritable))
    ensures r.Err? && r.error in {NotADirectory, IsADirectory, AlreadyExists} ==> KindAt(t, to.Place()).Some?
    ensures r == Err(AlreadyExists) ==> KindAt(t, to.Place()) == KindAt(t, from.Place())
    ensures r == Err(NotADirectory) ==> KindAt(t, from.Place()) == Some(true) && KindAt(t, to.Place()) == Some(false)
    ensures r == Err(IsADirectory) ==> KindAt(t, from.Place()) == Some(false) && KindAt(t, to.Place()) == Some(true)
    ensures r == Err(SourceMissing) ==> KindAt(t, from.Place()).None?
    ensures r == Err(IntoItself) ==> samePoint && Fitted(from, true).rel <= Fitted(to, true).rel
    ensures r != Err(Identical)
  {
    assert forall p :: KindAt(t, p) == Some(false) ==> p in t && t[p].File?;
    assert from.rel != "" ==> WithSlash(from.rel) == from.rel + "/";
    assert to.rel != "" ==> WithSlash(to.rel) == to.rel + "/";
    hide Admitted, Faithful, Exists, KindAt, SumLengths, WithSlash, Plain, WellNamed;
    quotaCheck := copy || !samePoint;
    if !rights.dstWritable || (!copy && (rights.srcIsRepo || !rights.srcWritable)) {
      return Err(Denied), quotaCheck;
    }
    var source := KindAt(t, from.Place());
    if source.None? {
      return Err(SourceMissing), quotaCheck;
    }
    var isDir := source.value;
    var src, dst := Fitted(from, isDir), Fitted(to, isDir);
    var target := KindAt(t, to.Place());
    if target.Some? {
      if isDir && !target.value {
        return Err(NotADirectory), quotaCheck;
      }
      if !isDir && target.value {
        return Err(IsADirectory), quotaCheck;
      }
      return Err(AlreadyExists), quotaCheck;
    }
    if samePoint && src.rel == dst.rel {
      FittedDiffer(t, from, to, isDir);
      return Err(Identical), quotaCheck;
    }
    if isDir && samePoint && src.rel <= dst.rel {
      return Err(IntoItself), quotaCheck;
    }
    var total := 0;
    if isDir {
      total := TotalBytes(listing);
    } else {
      total := |t[from.Place()].bytes|;
    }
    var plan := PlanOf(from, to, isDir, listing, total, copy, sameBackend && samePoint);
    r := Ok(plan);
    if isDir && SumLengths(listing) <= U64_MAX && Faithful(t, plan) {
      DirPlanIsAdmitted(t, from, to, samePoint, plan);
    } else if !isDir {
      FilePlanIsAdmitted(t, from, to, samePoint, plan);
    }
  }

  function PlanOf(from: End, to: End, isDir: bool, listing: seq<Entry>, total: nat, copy: bool, native: bool): Plan {
    Plan(Fitted(from, isDir).Place(), Fitted(to, isDir).Place(), isDir, if isDir then listing else [], total,
         copy, native)
  }

  method TotalBytes(listing: seq<Entry>) returns (total: nat)
    ensures total == Min(SumLengths(listing), U64_MAX)
  {
    total := 0;
    for n := 0 to |listing|
      invariant total == Min(SumLengths(listing[..n]), U64_MAX)
    {
      OneMoreEntry(listing, n);
      if !listing[n].isDir {
        total := SatAdd(total, listing[n].length);
      }
    }
    assert listing[..|listing|] == listing;
  }

  lemma FittedDiffer(t: Tree, from: End, to: End, isDir: bool)
    requires from.root == to.root && Plain(from) && Plain(to)
    requires KindAt(t, from.Place()).Some? && KindAt(t, to.Place()).None?
    ensures Fitted(from, isDir).rel != Fitted(to, isDir).rel
  {
    hide KindAt;
    var a, b := from.rel, to.rel;
    SlashedDiffer(a, b);
    assert a == b ==> from == to;
  }

  lemma SlashedDiffer(a: Path, b: Path)
    requires (a == "" || a[|a| - 1] != '/') && (b == "" || b[|b| - 1] != '/')
    ensures WithSlash(a) == WithSlash(b) ==> a == b
    ensures WithSlash(a) != ""
  {
    assert WithSlash(a)[..|WithSlash(a)| - 1] == a && WithSlash(b)[..|WithSlash(b)| - 1] == b;
  }

  lemma DirPlanIsAdmitted(t: Tree, from: End, to: End, samePoint: bool, plan: Plan)
    requires Plain(from) && Plain(to) && WellNamed(t) && (samePoint ==> from.root == to.root)
    requires KindAt(t, from.Place()) == Some(true) && KindAt(t, to.Place()).None?
    requires plan.isDir && plan.src == Fitted(from, true).Place() && plan.dst == Fitted(to, true).Place()
    requires plan.total == SumLengths(plan.entries) && Faithful(t, plan) && (plan.native ==> samePoint)
    requires samePoint ==> !(Fitted(from, true).rel <= Fitted(to, true).rel)
    ensures Admitted(t, plan, Fitted(from, true), Fitted(to, true), samePoint)
  {
    PlacesFitted(t, from, true);
    PlacesFitted(t, to, true);
    TwiceSlashed(from.Place());
    TwiceSlashed(to.Place());
    hide KindAt, Exists, Faithful, SumLengths, WithSlash, Plain, WellNamed;
  }

  lemma TwiceSlashed(p: Path)
    ensures WithSlash(WithSlash(p)) == WithSlash(p)
  {
  }

  lemma FilePlanIsAdmitted(t: Tree, from: End, to: End, samePoint: bool, plan: Plan)
    requires Plain(from) && Plain(to) && WellNamed(t) && (samePoint ==> from.root == to.root)
    requires KindAt(t, from.Place()) == Some(false) && KindAt(t, to.Place()).None?
    requires !plan.isDir && plan.src == from.Place() && plan.dst == to.Place()
    requires plan.native ==> samePoint
    requires plan.src in t && t[plan.src].File? ==> plan.total == |t[plan.src].bytes|
    ensures Admitted(t, plan, from, to, samePoint)
  {
    if samePoint { FittedDiffer(t, from, to, false); }
  }

  lemma PlacesFitted(t: Tree, e: End, isDir: bool)
    requires Plain(e) && WellNamed(t)
    ensures Fitted(e, isDir).Place() == if isDir then WithSlash(e.Place()) else e.Place()
    ensures Exists(t, Fitted(e, isDir).Place()) ==> Exists(t, e.Place())
    ensures KindAt(t, e.Place()) == Some(true) ==> Exists(t, WithSlash(e.Place()))
    ensures KindAt(t, e.Place()).None? ==> !Exists(t, WithSlash(e.Place()))
  {
    var p := e.Place();
    if e.rel != "" {
      assert p[|p| - 1] == e.rel[|e.rel| - 1];
    } else {
      assert p == e.root;
    }
    assert WithSlash(WithSlash(p)) == WithSlash(p);
  }

  /** The destination lies inside the directory that is transferred. */
  predicate Nested(plan: Plan) { plan.isDir && WithSlash(plan.src) <= WithSlash(plan.dst) }

  /** What admission gives: nothing exists at the destination, and directories end
      in a slash. */
  ghost predicate Clear(plan: Plan, base: Tree) {
    && (forall p :: p in base ==> !plan.Owned(p))
    && (plan.isDir ==> plan.src == WithSlash(plan.src) && plan.dst == WithSlash(plan.dst))
  }

  /** The two ends have no path in common. */
  ghost predicate Disjoint(plan: Plan) { forall p :: plan.Source(p) ==> !plan.Owned(p) }

  /** An admitted transfer writes onto nothing; its ends are disjoint exactly when
      the destination is not inside the source, which the checks ensure within one
      point, and between points whose roots do not lie one in the other. */
  lemma AdmittedIsDisjointIff(t: Tree, plan: Plan, from: End, to: End, samePoint: bool)
    requires Admitted(t, plan, from, to, samePoint)
    ensures Clear(plan, t)
    ensures Disjoint(plan) <==> !Nested(plan)
    ensures samePoint || !(from.root <= to.root || to.root <= from.root) ==> !Nested(plan)
  {
    if Nested(plan) {
      assert plan.Source(plan.dst) && plan.Owned(plan.dst);
      RootsMeet(from, to);
    } else {
      forall p | plan.Source(p)
        ensures !plan.Owned(p)
      {
        Comparable(WithSlash(plan.src), WithSlash(plan.dst), p);
      }
    }
  }

  lemma RootsMeet(from: End, to: End)
    requires from.Place() <= to.Place()
    ensures from.root <= to.root || to.root <= from.root
    ensures from.root == to.root ==> from.rel <= to.rel
  {
    var r := to.Place();
    assert from.root == r[..|from.root|] && to.root == r[..|to.root|];
    if from.root == to.root {
      assert from.rel == from.Place()[|from.root|..] && to.rel == r[|to.root|..];
    }
  }

  lemma Comparable(a: Path, b: Path, p: Path)
    ensures a <= p && b <= p ==> a <= b || b <= a
    ensures b <= a && a <= p ==> b <= p
  {
    if a <= p && b <= p {
      assert a == p[..|a|] && b == p[..|b|];
    }
  }

  // ── Trees compared ────────────────────────────────────────────────────────

  predicate SameAt(a: Tree, b: Tree, p: Path) { (p in a <==> p in b) && (p in a ==> a[p] == b[p]) }

  /** Nothing outside the job's own paths has changed. */
  ghost predicate OnlyOwned(plan: Plan, base: Tree, s: Tree) {
    forall p :: !plan.Owned(p) ==> SameAt(base, s, p)
  }

  /** Every source file is intact where it was, or complete where it goes. */
  ghost predicate Recoverable(plan: Plan, base: Tree, s: Tree) {
    forall p :: p in base && plan.Source(p) && base[p].File? ==>
      (p in s && s[p] == base[p]) || (plan.Rebase(p) in s && s[plan.Rebase(p)] == base[p])
  }

  /** The destination is the source, rebased: same files, directories and empty
      directories, and nothing else. */
  ghost predicate Complete(plan: Plan, base: Tree, s: Tree) {
    forall q :: plan.Owned(q) ==>
      if plan.isDir && q == plan.dst then q in s && s[q].Dir?
      else (q in s <==> plan.Unbase(q) in base) && (q in s ==> s[q] == base[plan.Unbase(q)])
  }

  lemma OnlyOwnedIsRecoverable(plan: Plan, base: Tree, s: Tree)
    requires OnlyOwned(plan, base, s) && Clear(plan, base)
    ensures Recoverable(plan, base, s)
  {
    forall p | p in base && plan.Source(p) && base[p].File?
      ensures p in s && s[p] == base[p]
    {
      assert SameAt(base, s, p);
    }
  }

  lemma CompleteIsRecoverable(plan: Plan, base: Tree, s: Tree)
    requires Complete(plan, base, s) && Clear(plan, base)
    requires plan.isDir && plan.src in base ==> base[plan.src].Dir?
    ensures Recoverable(plan, base, s)
  {
    forall p | p in base && plan.Source(p) && base[p].File?
      ensures plan.Rebase(p) in s && s[plan.Rebase(p)] == base[p]
    {
      RebaseInverts(plan, p, plan.Rebase(p));
      assert plan.isDir && p != plan.src ==> |plan.Rebase(p)| > |plan.dst|;
    }
  }

  // ── The storage, with every state it goes through ─────────────────────────

  /** One answer of the outside world: whether the operation is reported as failed,
      whether it took effect all the same, and how many bytes a read returns. */
  datatype Answer = Answer(fails: bool, landed: bool, chunk: nat)

  /** Answers to the reads and writes of a job, to its removals, and to its questions
      whether it has been cancelled. */
  datatype World = World(io: nat -> Answer, removals: nat -> Answer, cancels: nat -> bool)

  /** A world without failures, cancellation or empty reads. */
  ghost predicate Willing(world: World) {
    forall i :: !world.io(i).fails && world.io(i).chunk > 0 && !world.removals(i).fails && !world.cancels(i)
  }

  /** One of these removals was reported as failed. */
  ghost predicate Refused(world: World, from: nat, to: nat) {
    exists i :: from <= i < to && world.removals(i).fails
  }

  /** One of these reads and writes was reported as failed, or one was and one read
      nothing. */
  ghost predicate Failed(world: World, from: nat, to: nat) { exists i :: from <= i < to && world.io(i).fails }

  ghost predicate Hampered(world: World, from: nat, to: nat) {
    exists i :: from <= i < to && (world.io(i).fails || world.io(i).chunk == 0)
  }

  /** One of these questions was answered with a cancellation. */
  ghost predicate Stopped(world: World, from: nat, to: nat) { exists i :: from <= i < to && world.cancels(i) }

  /** Answer to a rename; `Unheard` took effect but is reported as failed. */
  datatype Renamed = Renamed | Unsupported | Broken | Unheard

  class Storage {
    var nodes: Tree
    var tick: nat
    var removed: nat
    var checks: nat
    var done: nat
    const world: World
    ghost var history: seq<Tree>

    /** The history ends in the present. */
    ghost predicate Valid()
      reads this
    {
      history != [] && history[|history| - 1] == nodes
    }

    constructor (nodes: Tree, world: World)
      ensures Valid() && this.nodes == nodes && this.world == world && history == [nodes] && done == 0
    {
      this.nodes, this.world, tick, removed, checks, done, history := nodes, world, 0, 0, 0, 0, [nodes];
    }

    method Ask() returns (a: Answer)
      modifies this`tick
      ensures tick == old(tick) + 1 && a == world.io(old(tick))
      ensures Willing(world) ==> !a.fails && a.chunk > 0
    {
      a := world.io(tick);
      tick := tick + 1;
    }

    method AskRemoval() returns (a: Answer)
      modifies this`removed
      ensures removed == old(removed) + 1 && a == world.removals(old(removed))
      ensures Willing(world) ==> !a.fails
    {
      a := world.removals(removed);
      removed := removed + 1;
    }

    method IsCancelled() returns (c: bool)
      modifies this`checks
      ensures checks == old(checks) + 1 && c == world.cancels(old(checks))
      ensures Willing(world) ==> !c
    {
      c := world.cancels(checks);
      checks := checks + 1;
    }

    method Put(p: Path, node: Node)
      modifies this`nodes, this`history
      ensures Valid() && nodes == old(nodes)[p := node] && history == old(history) + [nodes]
    {
      nodes := nodes[p := node];
      history := history + [nodes];
    }

    method Replace(all: Tree)
      modifies this`nodes, this`history
      ensures Valid() && nodes == all && history == old(history) + [nodes]
    {
      nodes := all;
      history := history + [nodes];
    }

    method Remove(p: Path)
      modifies this`nodes, this`history
      ensures Valid() && nodes == old(nodes) - {p} && history == old(history) + [nodes]
    {
      nodes := nodes - {p};
      history := history + [nodes];
    }
  }

  /** Every state a call went through keeps what the job does not own. */
  ghost predicate OwnedThrough(plan: Plan, base: Tree, before: seq<Tree>, after: seq<Tree>) {
    before <= after && forall i :: |before| <= i < |after| ==> OnlyOwned(plan, base, after[i])
  }

  lemma WriteKeepsOthers(plan: Plan, base: Tree, before: seq<Tree>, after: seq<Tree>, s: Tree, q: Path, node: Node)
    requires OnlyOwned(plan, base, s) && plan.Owned(q) && OwnedThrough(plan, base, before, after)
    ensures OnlyOwned(plan, base, s[q := node])
    ensures OwnedThrough(plan, base, before, after + [s[q := node]])
  {
  }

  lemma NothingYet(plan: Plan, base: Tree, before: seq<Tree>)
    ensures OwnedThrough(plan, base, before, before) && OnlyOwned(plan, base, base)
  {
  }

  /** One write of a job, which may take effect even when it is reported as failed. */
  method Store(st: Storage, plan: Plan, base: Tree, ghost before: seq<Tree>, q: Path, node: Node) returns (ok: bool)
    requires st.Valid() && OnlyOwned(plan, base, st.nodes) && plan.Owned(q)
    requires OwnedThrough(plan, base, before, st.history)
    modifies st`nodes, st`tick, st`history
    ensures st.Valid() && OnlyOwned(plan, base, st.nodes) && OwnedThrough(plan, base, before, st.history)
    ensures st.nodes == old(st.nodes) || st.nodes == old(st.nodes)[q := node]
    ensures ok ==> st.nodes == old(st.nodes)[q := node] && |st.history| == |old(st.history)| + 1
    ensures st.tick == old(st.tick) + 1 && (ok <==> !st.world.io(old(st.tick)).fails)
    ensures Willing(st.world) ==> ok
  {
    hide OnlyOwned, OwnedThrough, Willing;
    var a := st.Ask();
    if !a.fails || a.landed {
      WriteKeepsOthers(plan, base, before, st.history, st.nodes, q, node);
      st.Put(q, node);
    }
    ok := !a.fails;
  }

  /** One turn of the streaming loop: what was read is appended to the destination.
      `rest` is the tree but for the destination. */
  method CopyChunk(st: Storage, plan: Plan, base: Tree, ghost before: seq<Tree>, ghost rest: Tree,
                   src: Path, dst: Path, total: nat, offset: nat) returns (ok: bool, n: nat)
    requires src in base && base[src].File? && |base[src].bytes| == total && offset < total
    requires src != dst && plan.Owned(dst) && src in rest && rest[src] == base[src]
    requires st.nodes == rest[dst := File(base[src].bytes[..offset])]
    requires st.Valid() && OnlyOwned(plan, base, st.nodes) && OwnedThrough(plan, base, before, st.history)
    modifies st`nodes, st`tick, st`checks, st`history
    ensures st.Valid() && OnlyOwned(plan, base, st.nodes) && OwnedThrough(plan, base, before, st.history)
    ensures forall q :: q != dst ==> SameAt(rest, st.nodes, q)
    ensures ok ==> 0 < n <= total - offset && st.nodes == rest[dst := File(base[src].bytes[..offset + n])]
    ensures st.checks == old(st.checks) + 1
    ensures st.world.cancels(old(st.checks)) ==> !ok && st.nodes == old(st.nodes)
    ensures old(st.tick) <= st.tick && (ok ==> !Failed(st.world, old(st.tick), st.tick))
    ensures !ok ==> Hampered(st.world, old(st.tick), st.tick) || Stopped(st.world, old(st.checks), st.checks)
    ensures ok ==> |st.history| == |old(st.history)| + 1 && st.tick == old(st.tick) + 2
    ensures Willing(st.world) ==> ok
  {
    hide OnlyOwned, Within, OwnedThrough, Willing;
    var cancelled := st.IsCancelled();
    if cancelled {
      return false, 0;
    }
    var a := st.Ask();
    var end := Min(offset + SPOOL_CHUNK, total);
    n := Min(a.chunk, end - offset);
    if a.fails || n == 0 {
      return false, n;
    }
    var buffer := st.nodes[src].bytes[offset..offset + n];
    OneMoreChunk(rest, dst, base[src].bytes, offset, n);
    ok := Store(st, plan, base, before, dst, File(st.nodes[dst].bytes + buffer));
  }

  /** Streams one file in chunks. */
  method StreamCopy(st: Storage, plan: Plan, base: Tree, src: Path, dst: Path, total: nat) returns (ok: bool)
    requires plan.Source(src) && plan.Owned(dst) && !plan.Owned(src) && OnlyOwned(plan, base, st.nodes)
    requires src in base && base[src].File? && |base[src].bytes| == total
    requires st.Valid()
    modifies st`nodes, st`tick, st`checks, st`done, st`history
    ensures st.Valid()
    ensures OwnedThrough(plan, base, old(st.history), st.history) && OnlyOwned(plan, base, st.nodes)
    ensures forall q :: q != dst ==> SameAt(old(st.nodes), st.nodes, q)
    ensures old(st.done) <= st.done <= old(st.done) + total
    ensures ok ==> st.nodes == old(st.nodes)[dst := base[src]] && st.done == old(st.done) + total
    ensures ok ==> |st.history| == |old(st.history)| + 1 + (st.checks - old(st.checks))
    ensures st.checks >= old(st.checks) && (ok ==> !Stopped(st.world, old(st.checks), st.checks))
    ensures old(st.tick) <= st.tick && (ok ==> !Failed(st.world, old(st.tick), st.tick))
    ensures !ok ==> Hampered(st.world, old(st.tick), st.tick) || Stopped(st.world, old(st.checks), st.checks)
    ensures ok ==> st.tick == old(st.tick) + 2 + 2 * (st.checks - old(st.checks))
    ensures Willing(st.world) ==> ok
  {
    assert src in st.nodes && st.nodes[src] == base[src] by { assert SameAt(base, st.nodes, src); }
    NothingYet(plan, base, st.history);
    hide OnlyOwned, Within, OwnedThrough, Willing, Storage.Valid;
    ok := Store(st, plan, base, old(st.history), dst, File([]));
    if !ok {
      return;
    }
    var offset := 0;
    while offset < total
      invariant 0 <= offset <= total && st.Valid()
      invariant st.nodes == old(st.nodes)[dst := File(base[src].bytes[..offset])]
      invariant st.done == old(st.done) + offset
      invariant old(st.checks) <= st.checks && !Stopped(st.world, old(st.checks), st.checks)
      invariant st.tick == old(st.tick) + 1 + 2 * (st.checks - old(st.checks))
      invariant !Failed(st.world, old(st.tick), st.tick)
      invariant |st.history| == |old(st.history)| + 1 + (st.checks - old(st.checks))
      invariant OwnedThrough(plan, base, old(st.history), st.history) && OnlyOwned(plan, base, st.nodes)
      decreases total - offset
    {
      var n: nat;
      ok, n := CopyChunk(st, plan, base, old(st.history), old(st.nodes), src, dst, total, offset);
      if !ok {
        return;
      }
      offset := offset + n;
      st.done := st.done + n;
    }
    var a := st.Ask();
    assert base[src].bytes[..total] == base[src].bytes;
    ok := !a.fails;
  }

  lemma OneMoreChunk(t: Tree, dst: Path, content: seq<int>, offset: nat, n: nat)
    requires offset + n <= |content|
    ensures content[..offset] + content[offset..offset + n] == content[..offset + n]
    ensures t[dst := File(content[..offset])][dst := File(content[..offset + n])]
            == t[dst := File(content[..offset + n])]
  {
  }

  /** Copies one file natively when possible, by streaming otherwise. */
  method CopyOne(st: Storage, plan: Plan, base: Tree, src: Path, dst: Path, total: nat) returns (ok: bool)
    requires plan.Source(src) && plan.Owned(dst) && !plan.Owned(src) && OnlyOwned(plan, base, st.nodes)
    requires src in base && base[src].File? && |base[src].bytes| == total
    requires st.Valid()
    modifies st`nodes, st`tick, st`checks, st`done, st`history
    ensures st.Valid()
    ensures OwnedThrough(plan, base, old(st.history), st.history) && OnlyOwned(plan, base, st.nodes)
    ensures forall q :: q != dst ==> SameAt(old(st.nodes), st.nodes, q)
    ensures old(st.done) <= st.done <= old(st.done) + total
    ensures ok ==> st.nodes == old(st.nodes)[dst := base[src]] && st.done == old(st.done) + total
    ensures st.checks >= old(st.checks) && (ok ==> !Stopped(st.world, old(st.checks), st.checks))
    ensures old(st.tick) <= st.tick && (ok ==> !Failed(st.world, old(st.tick), st.tick))
    ensures !ok ==> Hampered(st.world, old(st.tick), st.tick) || Stopped(st.world, old(st.checks), st.checks)
    ensures ok ==> st.tick - old(st.tick) == if plan.native then 1 else 2 + 2 * (st.checks - old(st.checks))
    ensures plan.native ==> st.checks == old(st.checks)
    ensures Willing(st.world) ==> ok
  {
    if plan.native {
      assert src in st.nodes && st.nodes[src] == base[src] by { assert SameAt(base, st.nodes, src); }
      NothingYet(plan, base, st.history);
      hide OnlyOwned, OwnedThrough, Willing, Within;
      ok := Store(st, plan, base, old(st.history), dst, st.nodes[src]);
      if ok {
        st.done := st.done + total;
      }
    } else {
      ok := StreamCopy(st, plan, base, src, dst, total);
    }
  }

  function Listed(entries: seq<Entry>): set<Path> { set e | e in entries :: e.path }

  /** The destination once the given entries have been dealt with. */
  ghost predicate CopiedUpTo(plan: Plan, base: Tree, s: Tree, listed: set<Path>) {
    && plan.dst in s && s[plan.dst].Dir?
    && forall q :: plan.Owned(q) && q != plan.dst ==>
         && (q in s <==> plan.Unbase(q) in listed && plan.Unbase(q) in base)
         && (q in s ==> s[q] == base[plan.Unbase(q)])
  }

  lemma UnbaseKeepsRoot(plan: Plan, q: Path)
    requires plan.isDir && plan.src == WithSlash(plan.src) && plan.dst == WithSlash(plan.dst) && plan.Owned(q)
    ensures plan.Unbase(q) == plan.src <==> q == plan.dst
  {
    assert |plan.Unbase(q)| - |plan.src| == |q| - |plan.dst|;
    assert plan.Unbase(q) == plan.src + q[|plan.dst|..];
    if q == plan.dst {
      assert q[|plan.dst|..] == "";
    }
  }

  lemma CopiedAll(plan: Plan, base: Tree, s: Tree)
    requires plan.isDir && plan.src == WithSlash(plan.src) && plan.dst == WithSlash(plan.dst)
    requires Faithful(base, plan) && CopiedUpTo(plan, base, s, Listed(plan.entries))
    ensures Complete(plan, base, s)
  {
    forall q | plan.Owned(q) && q != plan.dst
      ensures q in s <==> plan.Unbase(q) in base
      ensures q in s ==> s[q] == base[plan.Unbase(q)]
    {
      UnbaseKeepsRoot(plan, q);
      if plan.Unbase(q) in base {
        var i :| 0 <= i < |plan.entries| && plan.entries[i].path == plan.Unbase(q);
        assert plan.entries[i] in plan.entries;
      }
    }
  }

  lemma CopiedOneMore(plan: Plan, base: Tree, s: Tree, t: Tree, listed: set<Path>, p: Path)
    requires plan.isDir && plan.src == WithSlash(plan.src) && plan.dst == WithSlash(plan.dst)
    requires CopiedUpTo(plan, base, s, listed) && plan.Source(p) && p in base
    requires t == if p == plan.src then s else s[plan.Rebase(p) := base[p]]
    ensures CopiedUpTo(plan, base, t, listed + {p})
  {
    var d := plan.Rebase(p);
    RebaseInverts(plan, p, d);
    UnbaseKeepsRoot(plan, d);
    forall q | plan.Owned(q) && q != plan.dst
      ensures q in t <==> plan.Unbase(q) in listed + {p} && plan.Unbase(q) in base
      ensures q in t ==> t[q] == base[plan.Unbase(q)]
    {
      UnbaseKeepsRoot(plan, q);
      RebaseInverts(plan, plan.Unbase(q), q);
    }
  }

  /** The bytes and the names of the first n entries. */
  lemma {:induction false} OneMoreEntry(entries: seq<Entry>, n: nat)
    requires n < |entries|
    ensures SumLengths(entries[..n + 1]) == SumLengths(entries[..n]) + if entries[n].isDir then 0 else entries[n].length
    ensures Listed(entries[..n + 1]) == Listed(entries[..n]) + {entries[n].path}
  {
    assert entries[..n + 1][..n] == entries[..n];
    assert entries[..n + 1] == entries[..n] + [entries[n]];
  }

  lemma {:induction false} SumGrows(entries: seq<Entry>, n: nat)
    requires n <= |entries|
    ensures SumLengths(entries[..n]) <= SumLengths(entries)
  {
    if n < |entries| {
      SumGrows(entries[..|entries| - 1], n);
      assert entries[..|entries| - 1][..n] == entries[..n];
    } else {
      assert entries[..n] == entries;
    }
  }

  /** One listed entry: a directory is created, a file copied, the root skipped. */
  method CopyEntry(st: Storage, plan: Plan, base: Tree, entry: Entry) returns (ok: bool)
    requires plan.isDir && plan.Source(entry.path) && entry.path in base
    requires if entry.isDir then base[entry.path].Dir?
             else base[entry.path].File? && entry.length == |base[entry.path].bytes|
    requires OnlyOwned(plan, base, st.nodes) && Clear(plan, base)
    requires plan.src == entry.path ==> entry.isDir
    requires st.Valid()
    modifies st`nodes, st`tick, st`checks, st`done, st`history
    ensures st.Valid()
    ensures OwnedThrough(plan, base, old(st.history), st.history) && OnlyOwned(plan, base, st.nodes)
    ensures old(st.done) <= st.done <= old(st.done) + if entry.isDir then 0 else entry.length
    ensures ok ==> st.nodes == if entry.path == plan.src then old(st.nodes)
                               else old(st.nodes)[plan.Rebase(entry.path) := base[entry.path]]
    ensures ok ==> st.done == old(st.done) + if entry.isDir then 0 else entry.length
    ensures st.checks > old(st.checks) && (ok ==> !Stopped(st.world, old(st.checks), st.checks))
    ensures st.world.cancels(old(st.checks)) ==> !ok && st.nodes == old(st.nodes)
    ensures old(st.tick) <= st.tick && (ok ==> !Failed(st.world, old(st.tick), st.tick))
    ensures !ok ==> Hampered(st.world, old(st.tick), st.tick) || Stopped(st.world, old(st.checks), st.checks)
    ensures Willing(st.world) ==> ok
  {
    NothingYet(plan, base, st.history);
    hide OnlyOwned, OwnedThrough, Willing, WithSlash;
    var cancelled := st.IsCancelled();
    if cancelled {
      return false;
    }
    if entry.path == plan.src {
      return true;
    }
    var destination := plan.Rebase(entry.path);
    if entry.isDir {
      ok := Store(st, plan, base, old(st.history), destination, Dir);
    } else {
      ok := CopyOne(st, plan, base, entry.path, destination, entry.length);
    }
  }

  /** Deals with every entry of a listed directory, in order. */
  method CopyEntries(st: Storage, plan: Plan, base: Tree) returns (ok: bool)
    requires plan.isDir && Faithful(base, plan)
    requires OnlyOwned(plan, base, st.nodes) && Clear(plan, base)
    requires CopiedUpTo(plan, base, st.nodes, {})
    requires st.Valid()
    modifies st`nodes, st`tick, st`checks, st`done, st`history
    ensures st.Valid()
    ensures OwnedThrough(plan, base, old(st.history), st.history) && OnlyOwned(plan, base, st.nodes)
    ensures old(st.done) <= st.done <= old(st.done) + SumLengths(plan.entries)
    ensures ok ==> CopiedUpTo(plan, base, st.nodes, Listed(plan.entries))
                   && st.done == old(st.done) + SumLengths(plan.entries)
    ensures st.checks >= old(st.checks) && (ok ==> !Stopped(st.world, old(st.checks), st.checks))
    ensures ok ==> st.checks - old(st.checks) >= |plan.entries|
    ensures old(st.tick) <= st.tick && (ok ==> !Failed(st.world, old(st.tick), st.tick))
    ensures !ok ==> Hampered(st.world, old(st.tick), st.tick) || Stopped(st.world, old(st.checks), st.checks)
    ensures Willing(st.world) ==> ok
  {
    hide CopiedUpTo, SumLengths, Listed, OnlyOwned, WithSlash, Willing;
    Nothing(plan.entries);
    for n := 0 to |plan.entries|
      invariant st.Valid()
      invariant st.checks - old(st.checks) >= n && !Stopped(st.world, old(st.checks), st.checks)
      invariant old(st.tick) <= st.tick && !Failed(st.world, old(st.tick), st.tick)
      invariant OwnedThrough(plan, base, old(st.history), st.history) && OnlyOwned(plan, base, st.nodes)
      invariant CopiedUpTo(plan, base, st.nodes, Listed(plan.entries[..n]))
      invariant st.done == old(st.done) + SumLengths(plan.entries[..n])
    {
      OneMoreEntry(plan.entries, n);
      SumGrows(plan.entries, n);
      SumGrows(plan.entries, n + 1);
      ghost var before := st.nodes;
      var entry := plan.entries[n];
      assert entry in plan.entries;
      var copied := CopyEntry(st, plan, base, entry);
      if !copied {
        return false;
      }
      CopiedOneMore(plan, base, before, st.nodes, Listed(plan.entries[..n]), entry.path);
    }
    assert plan.entries[..|plan.entries|] == plan.entries;
    ok := true;
  }

  lemma Nothing(entries: seq<Entry>)
    ensures Listed(entries[..0]) == {} && SumLengths(entries[..0]) == 0
  {
  }

  lemma StartCopied(plan: Plan, base: Tree)
    requires forall p :: p in base ==> !plan.Owned(p)
    ensures CopiedUpTo(plan, base, base[plan.dst := Dir], {})
  {
  }

  lemma OwnedJoin(plan: Plan, base: Tree, a: seq<Tree>, b: seq<Tree>, c: seq<Tree>)
    requires OwnedThrough(plan, base, a, b) && OwnedThrough(plan, base, b, c)
    ensures OwnedThrough(plan, base, a, c)
  {
  }

  lemma EndsMeetNodes(t: Tree, plan: Plan, from: End, to: End, samePoint: bool)
    requires Admitted(t, plan, from, to, samePoint)
    ensures Clear(plan, t) && plan.Source(plan.src) && plan.Owned(plan.dst)
    ensures plan.isDir ==> Faithful(t, plan) && plan.total == SumLengths(plan.entries)
    ensures !plan.isDir ==>
              && plan.src in t && t[plan.src].File? && |t[plan.src].bytes| == plan.total
              && Complete(plan, t, t[plan.dst := t[plan.src]])
  {
    AdmittedIsDisjointIff(t, plan, from, to, samePoint);
    hide Faithful, SumLengths;
  }

  lemma AnswersJoin(world: World, tick: nat, check: nat)
    ensures !Failed(world, tick, tick + 1) <==> !world.io(tick).fails
    ensures Hampered(world, tick, tick + 1) <== world.io(tick).fails
    ensures forall to :: tick < to && !world.io(tick).fails && !Failed(world, tick + 1, to) ==> !Failed(world, tick, to)
    ensures forall to :: Hampered(world, tick + 1, to) ==> Hampered(world, tick, to)
    ensures !Stopped(world, check, check)
  {
  }

  /** Copies the whole source, creating directories as they are listed. */
  method CopyTree(st: Storage, plan: Plan, base: Tree, from: End, to: End, samePoint: bool) returns (ok: bool)
    requires st.nodes == base && Admitted(base, plan, from, to, samePoint)
    requires st.Valid()
    modifies st`nodes, st`tick, st`checks, st`done, st`history
    ensures st.Valid()
    ensures OwnedThrough(plan, base, old(st.history), st.history) && OnlyOwned(plan, base, st.nodes)
    ensures old(st.done) <= st.done <= old(st.done) + plan.total
    ensures ok ==> Complete(plan, base, st.nodes) && st.done == old(st.done) + plan.total
    ensures st.checks >= old(st.checks) && (ok ==> !Stopped(st.world, old(st.checks), st.checks))
    ensures old(st.tick) <= st.tick && (ok ==> !Failed(st.world, old(st.tick), st.tick))
    ensures !ok ==> Hampered(st.world, old(st.tick), st.tick) || Stopped(st.world, old(st.checks), st.checks)
    ensures Willing(st.world) ==> ok
  {
    AdmittedIsDisjointIff(base, plan, from, to, samePoint);
    NothingYet(plan, base, st.history);
    EndsMeetNodes(base, plan, from, to, samePoint);
    hide Faithful, SumLengths, CopiedUpTo, OwnedThrough, OnlyOwned, Within, Willing;
    hide Admitted, Complete, Disjoint, WithSlash, Failed, Hampered, Stopped;
    AnswersJoin(st.world, st.tick, st.checks);
    if !plan.isDir {
      ok := CopyOne(st, plan, base, plan.src, plan.dst, plan.total);
      return;
    }
    ok := Store(st, plan, base, old(st.history), plan.dst, Dir);
    if !ok {
      return;
    }
    StartCopied(plan, base);
    ghost var made := st.history;
    ok := CopyEntries(st, plan, base);
    OwnedJoin(plan, base, old(st.history), made, st.history);
    if ok {
      CopiedAll(plan, base, st.nodes);
    }
  }

  // ── The job ───────────────────────────────────────────────────────────────

  /** Only nodes under `root` have gone. */
  ghost predicate Shrunk(root: Path, isDir: bool, a: Tree, s: Tree) {
    && (forall p :: p in s ==> p in a && s[p] == a[p])
    && (forall p :: p in a && !Within(root, isDir, p) ==> p in s)
  }

  ghost predicate ShrunkThrough(root: Path, isDir: bool, a: Tree, before: seq<Tree>, after: seq<Tree>) {
    before <= after && forall i :: |before| <= i < |after| ==> Shrunk(root, isDir, a, after[i])
  }

  lemma ShrunkMore(root: Path, isDir: bool, a: Tree, s: Tree, p: Path, before: seq<Tree>, after: seq<Tree>)
    requires Shrunk(root, isDir, a, s) && Within(root, isDir, p) && ShrunkThrough(root, isDir, a, before, after)
    ensures Shrunk(root, isDir, a, s - {p}) && ShrunkThrough(root, isDir, a, before, after + [s - {p}])
  {
  }

  /** Removes one node of the tree; may be reported as failed with or without effect. */
  method RemoveOne(st: Storage, root: Path, isDir: bool, ghost a: Tree, ghost before: seq<Tree>, p: Path)
    returns (ok: bool)
    requires st.Valid() && p in st.nodes && Within(root, isDir, p)
    requires ShrunkThrough(root, isDir, a, before, st.history) && Shrunk(root, isDir, a, st.nodes)
    modifies st`nodes, st`removed, st`history
    ensures st.Valid()
    ensures ShrunkThrough(root, isDir, a, before, st.history) && Shrunk(root, isDir, a, st.nodes)
    ensures st.removed == old(st.removed) + 1 && ok == !st.world.removals(old(st.removed)).fails
    ensures ok ==> |st.nodes| < |old(st.nodes)|
  {
    ShrunkMore(root, isDir, a, st.nodes, p, before, st.history);
    SmallerTree(st.nodes, p);
    hide Within, Shrunk, ShrunkThrough;
    var answer := st.AskRemoval();
    if !answer.fails || answer.landed {
      st.Remove(p);
    }
    ok := !answer.fails;
  }

  /** Deletes a file or a tree node by node, in no known order; may stop short. */
  method DeleteTree(st: Storage, root: Path, isDir: bool) returns (ok: bool)
    requires st.Valid()
    modifies st`nodes, st`removed, st`history
    ensures st.Valid()
    ensures ShrunkThrough(root, isDir, old(st.nodes), old(st.history), st.history)
    ensures Shrunk(root, isDir, old(st.nodes), st.nodes)
    ensures ok ==> forall p :: p in st.nodes ==> !Within(root, isDir, p)
    ensures old(st.removed) <= st.removed && (ok <==> !Refused(st.world, old(st.removed), st.removed))
    ensures Willing(st.world) ==> ok
  {
    assert Shrunk(root, isDir, st.nodes, st.nodes);
    assert ShrunkThrough(root, isDir, st.nodes, st.history, st.history);
    NoneAsked(st.world, st.removed);
    hide Within, Shrunk, ShrunkThrough, Refused;
    while exists p :: p in st.nodes && Within(root, isDir, p)
      invariant st.Valid()
      invariant old(st.removed) <= st.removed && !Refused(st.world, old(st.removed), st.removed)
      invariant ShrunkThrough(root, isDir, old(st.nodes), old(st.history), st.history)
      invariant Shrunk(root, isDir, old(st.nodes), st.nodes)
      decreases |st.nodes|
    {
      RefusedMore(st.world, old(st.removed), st.removed);
      var p :| p in st.nodes && Within(root, isDir, p);
      ok := RemoveOne(st, root, isDir, old(st.nodes), old(st.history), p);
      if !ok {
        return;
      }
    }
    ok := true;
  }

  lemma RefusedMore(world: World, from: nat, to: nat)
    requires from <= to
    ensures Refused(world, from, to + 1) <==> Refused(world, from, to) || world.removals(to).fails
  {
  }

  lemma SmallerTree(t: Tree, p: Path)
    requires p in t
    ensures |t - {p}| < |t|
  {
    assert t == (t - {p})[p := t[p]];
  }

  /** At every moment the whole source is where it was, or the whole destination
      is in place; and no other path has changed. */
  ghost predicate Safe(plan: Plan, base: Tree, s: Tree) {
    && (forall p :: !plan.Owned(p) && !plan.Source(p) ==> SameAt(base, s, p))
    && (OnlyOwned(plan, base, s) || Complete(plan, base, s))
    && (plan.copy ==> OnlyOwned(plan, base, s))
  }

  lemma RebaseIsInjective(plan: Plan)
    ensures forall p, q :: plan.Source(p) && plan.Source(q) && plan.Rebase(p) == plan.Rebase(q) ==> p == q
  {
    forall p, q | plan.Source(p) && plan.Source(q) && plan.Rebase(p) == plan.Rebase(q)
      ensures p == q
    {
      RebaseInverts(plan, p, plan.Rebase(p));
      RebaseInverts(plan, q, plan.Rebase(q));
    }
  }

  ghost predicate SafeThrough(plan: Plan, base: Tree, before: seq<Tree>, after: seq<Tree>) {
    before <= after && forall i :: |before| <= i < |after| ==> Safe(plan, base, after[i])
  }

  function Rebased(plan: Plan, base: Tree): Tree {
    RebaseIsInjective(plan);
    map p | p in base && plan.Source(p) :: plan.Rebase(p) := base[p]
  }

  function Others(plan: Plan, base: Tree): Tree { map p | p in base && !plan.Source(p) :: base[p] }

  /** What a rename does in one step. */
  function Moved(plan: Plan, base: Tree): Tree {
    Others(plan, base) + Rebased(plan, base) + if plan.isDir then map[plan.dst := Dir] else map[]
  }

  lemma RebasedAt(plan: Plan, base: Tree, q: Path)
    ensures q in Rebased(plan, base) <==> plan.Owned(q) && plan.Unbase(q) in base
    ensures q in Rebased(plan, base) ==> Rebased(plan, base)[q] == base[plan.Unbase(q)]
  {
    RebaseIsInjective(plan);
    if plan.Owned(q) {
      var p := plan.Unbase(q);
      RebaseInverts(plan, p, q);
      hide Plan.Source, Plan.Owned;
      if p in base {
        assert plan.Source(p) && plan.Rebase(p) == q;
      }
    }
  }

  lemma MovedAt(plan: Plan, base: Tree, q: Path)
    requires Clear(plan, base) && Disjoint(plan)
    ensures plan.Owned(q) ==>
      if plan.isDir && q == plan.dst then q in Moved(plan, base) && Moved(plan, base)[q].Dir?
      else (q in Moved(plan, base) <==> plan.Unbase(q) in base)
           && (q in Moved(plan, base) ==> Moved(plan, base)[q] == base[plan.Unbase(q)])
    ensures !plan.Owned(q) && !plan.Source(q) ==> SameAt(base, Moved(plan, base), q)
    ensures plan.Source(q) ==> q !in Moved(plan, base)
  {
    RebasedAt(plan, base, q);
    assert plan.isDir ==> plan.Owned(plan.dst);
    hide Rebased;
  }

  lemma MovedIsSafe(plan: Plan, base: Tree)
    requires Clear(plan, base) && Disjoint(plan)
    ensures Safe(plan, base, Moved(plan, base)) || plan.copy
    ensures Complete(plan, base, Moved(plan, base))
    ensures forall p :: p in Moved(plan, base) ==> !plan.Source(p)
  {
    hide Moved, Within;
    forall q
      ensures plan.Owned(q) ==>
        if plan.isDir && q == plan.dst then q in Moved(plan, base) && Moved(plan, base)[q].Dir?
        else (q in Moved(plan, base) <==> plan.Unbase(q) in base)
             && (q in Moved(plan, base) ==> Moved(plan, base)[q] == base[plan.Unbase(q)])
      ensures !plan.Owned(q) && !plan.Source(q) ==> SameAt(base, Moved(plan, base), q)
      ensures plan.Source(q) ==> q !in Moved(plan, base)
    {
      MovedAt(plan, base, q);
    }
  }

  /** The quota of a local destination: bytes its point holds, bytes the target
      file holds, and the limit if there is one. */
  datatype LocalQuota = LocalQuota(used: nat, existing: nat, limit: Option<nat>)

  function WithinQuota(quota: Option<LocalQuota>, total: nat): bool {
    quota.Some? && quota.value.limit.Some? && SatSub(total, quota.value.existing) != 0 ==>
      quota.value.used + SatSub(total, quota.value.existing) <= Min(U64_MAX, quota.value.limit.value)
  }

  lemma CleanedUp(plan: Plan, base: Tree, a: Tree, s: Tree)
    requires OnlyOwned(plan, base, a) && Shrunk(plan.dst, plan.isDir, a, s)
    ensures Safe(plan, base, s)
  {
    forall p | !plan.Owned(p)
      ensures SameAt(base, s, p)
    {
      assert SameAt(base, a, p);
    }
  }

  lemma SourceDeleted(plan: Plan, base: Tree, a: Tree, s: Tree)
    requires Clear(plan, base) && Disjoint(plan) && !plan.copy
    requires OnlyOwned(plan, base, a) && Complete(plan, base, a) && Shrunk(plan.src, plan.isDir, a, s)
    ensures Safe(plan, base, s) && Complete(plan, base, s)
  {
    forall p | !plan.Owned(p) && !plan.Source(p)
      ensures SameAt(base, s, p)
    {
      assert SameAt(base, a, p);
    }
    forall q | plan.Owned(q)
      ensures SameAt(a, s, q)
    {
      assert !plan.Source(q);
    }
  }

  /** Accepted exactly when the point stays within its limit with the target's bytes
      replaced by the new ones, or does not grow. */
  lemma AcceptedKeepsLimit(used: nat, existing: nat, limit: nat, total: nat)
    requires existing <= used && limit <= U64_MAX
    ensures WithinQuota(Some(LocalQuota(used, existing, Some(limit))), total)
            <==> total <= existing || used - existing + total <= limit
    ensures WithinQuota(Some(LocalQuota(used, existing, None)), total) && WithinQuota(None, total)
  {
  }

  /** What a move leaves when its source is gone and the destination was inside. */
  lemma GoneWithTheSource(plan: Plan, base: Tree, s: Tree)
    requires Clear(plan, base) && Nested(plan) && forall p :: p in s ==> !plan.Source(p)
    ensures !Complete(plan, base, s) && forall p :: p in s ==> !plan.Owned(p)
  {
    assert plan.Owned(plan.dst) && plan.Source(plan.dst);
    forall p | p in s
      ensures !plan.Owned(p)
    {
      Comparable(plan.dst, plan.src, p);
    }
  }

  ghost predicate Elsewhere(plan: Plan, base: Tree, s: Tree) {
    forall p :: !plan.Owned(p) && !plan.Source(p) ==> SameAt(base, s, p)
  }

  lemma DeletionStaysInside(plan: Plan, base: Tree, a: Tree, s: Tree)
    requires OnlyOwned(plan, base, a) && Shrunk(plan.src, plan.isDir, a, s)
    ensures Elsewhere(plan, base, s)
  {
    forall p | !plan.Owned(p) && !plan.Source(p)
      ensures SameAt(base, s, p)
    {
      assert SameAt(base, a, p);
    }
  }

  /** The second half of a move, once the copy is complete. */
  method DeleteSource(st: Storage, plan: Plan, base: Tree) returns (ok: bool)
    requires Clear(plan, base) && !plan.copy && (Disjoint(plan) <==> !Nested(plan))
    requires OnlyOwned(plan, base, st.nodes) && Complete(plan, base, st.nodes)
    requires st.Valid()
    modifies st`nodes, st`removed, st`checks, st`history
    ensures st.Valid()
    ensures !Nested(plan) ==> SafeThrough(plan, base, old(st.history), st.history) && Safe(plan, base, st.nodes)
    ensures Elsewhere(plan, base, st.nodes)
    ensures ok ==> (Complete(plan, base, st.nodes) <==> !Nested(plan))
    ensures ok ==> forall p :: p in st.nodes ==> !plan.Source(p)
    ensures st.checks == old(st.checks) + 1 && old(st.removed) <= st.removed
    ensures st.world.cancels(old(st.checks)) ==> !ok && st.nodes == old(st.nodes)
    ensures !st.world.cancels(old(st.checks)) ==> (ok <==> !Refused(st.world, old(st.removed), st.removed))
    ensures Willing(st.world) ==> ok
  {
    hide Complete, Clear, Disjoint, Shrunk, Within, OnlyOwned, WithSlash, SameAt, Safe, Willing, Nested, Elsewhere;
    ghost var copied := st.nodes;
    OnlyOwnedIsSafe(plan, base, copied);
    ElsewhereIfSafe(plan, base, copied);
    var cancelled := st.IsCancelled();
    if cancelled {
      return false;
    }
    ok := DeleteTree(st, plan.src, plan.isDir);
    DeletionStaysInside(plan, base, copied, st.nodes);
    if !Nested(plan) {
      forall s | Shrunk(plan.src, plan.isDir, copied, s)
        ensures Safe(plan, base, s) && Complete(plan, base, s)
      {
        SourceDeleted(plan, base, copied, s);
      }
    } else if ok {
      GoneWithTheSource(plan, base, st.nodes);
    }
  }

  /** Once the destination of a failed copy is removed, all is as it was. */
  lemma BackToBase(plan: Plan, base: Tree, a: Tree, s: Tree)
    requires Clear(plan, base) && OnlyOwned(plan, base, a) && Shrunk(plan.dst, plan.isDir, a, s)
    requires forall p :: p in s ==> !plan.Owned(p)
    ensures s == base
  {
    forall p
      ensures SameAt(base, s, p)
    {
      if !plan.Owned(p) {
        assert SameAt(base, a, p);
      }
    }
  }

  /** The way without a rename: copy all, then delete the source of a move. */
  method CopyThenDelete(st: Storage, plan: Plan, base: Tree, from: End, to: End, samePoint: bool)
    returns (ok: bool, ghost copied: bool)
    requires st.nodes == base && Admitted(base, plan, from, to, samePoint)
    requires st.Valid()
    modifies st`nodes, st`tick, st`removed, st`checks, st`done, st`history
    ensures st.Valid()
    ensures plan.copy || !Nested(plan) ==>
              SafeThrough(plan, base, old(st.history), st.history) && Safe(plan, base, st.nodes)
    ensures Elsewhere(plan, base, st.nodes)
    ensures ok ==> (Complete(plan, base, st.nodes) <==> plan.copy || !Nested(plan))
    ensures ok ==> st.done == old(st.done) + plan.total
    ensures ok && !plan.copy ==> forall p :: p in st.nodes ==> !plan.Source(p)
    ensures !copied ==> !ok && (Refused(st.world, old(st.removed), st.removed) || st.nodes == base)
    ensures copied && !ok ==>
              && !plan.copy
              && (Stopped(st.world, old(st.checks), st.checks) || Refused(st.world, old(st.removed), st.removed))
              && (Stopped(st.world, old(st.checks), st.checks) ==>
                    OnlyOwned(plan, base, st.nodes) && Complete(plan, base, st.nodes))
    ensures old(st.removed) <= st.removed && old(st.checks) <= st.checks
    ensures ok ==> !Stopped(st.world, old(st.checks), st.checks) && (!plan.copy ==> st.checks > old(st.checks))
    ensures old(st.tick) <= st.tick && (copied ==> !Failed(st.world, old(st.tick), st.tick))
    ensures !copied ==> Hampered(st.world, old(st.tick), st.tick) || Stopped(st.world, old(st.checks), st.checks)
    ensures Willing(st.world) ==> ok
    ensures st.done <= old(st.done) + plan.total
  {
    AdmittedIsDisjointIff(base, plan, from, to, samePoint);
    hide Admitted, Complete, Clear, Disjoint, Shrunk, Within, OnlyOwned, WithSlash, SameAt, Safe, Willing, Nested;
    hide Elsewhere;
    ok := CopyTree(st, plan, base, from, to, samePoint);
    copied := ok;
    ghost var made, checked := st.nodes, st.checks;
    forall s | OnlyOwned(plan, base, s)
      ensures Safe(plan, base, s)
    {
      OnlyOwnedIsSafe(plan, base, s);
    }
    if !ok {
      var cleaned := DeleteTree(st, plan.dst, plan.isDir);
      forall s | Shrunk(plan.dst, plan.isDir, made, s)
        ensures Safe(plan, base, s)
      {
        CleanedUp(plan, base, made, s);
      }
      if cleaned {
        BackToBase(plan, base, made, st.nodes);
      }
    } else if !plan.copy {
      ok := DeleteSource(st, plan, base);
      assert st.world.cancels(checked) ==> Stopped(st.world, old(st.checks), st.checks);
    }
  }

  lemma NoneAsked(world: World, at: nat)
    ensures !Stopped(world, at, at) && !Refused(world, at, at)
  {
  }

  lemma ElsewhereIfSafe(plan: Plan, base: Tree, s: Tree)
    ensures Safe(plan, base, s) ==> Elsewhere(plan, base, s)
  {
  }

  /** A move by renaming, where the backend can. */
  method TryRename(st: Storage, plan: Plan, base: Tree, rename: Renamed) returns (ok: bool)
    requires !plan.copy && !rename.Unsupported? && Clear(plan, base) && Disjoint(plan)
    requires st.nodes == base && st.done == 0
    requires st.Valid()
    modifies st`nodes, st`done, st`history
    ensures st.Valid()
    ensures SafeThrough(plan, base, old(st.history), st.history) && Safe(plan, base, st.nodes)
    ensures Elsewhere(plan, base, st.nodes)
    ensures ok == rename.Renamed? && st.nodes == if rename.Broken? then base else Moved(plan, base)
    ensures ok ==> Complete(plan, base, st.nodes) && (forall p :: p in st.nodes ==> !plan.Source(p))
    ensures st.done == if ok then Max(1, plan.total) else 0
  {
    OnlyOwnedIsSafe(plan, base, base);
    MovedIsSafe(plan, base);
    ElsewhereIfSafe(plan, base, base);
    ElsewhereIfSafe(plan, base, Moved(plan, base));
    hide Complete, Clear, Disjoint, Moved, Safe, Elsewhere, Within;
    if rename.Broken? {
      return false;
    }
    st.Replace(Moved(plan, base));
    if rename.Unheard? {
      return false;
    }
    st.done := Max(1, plan.total);
    ok := true;
  }

  /** The whole job. A rename is only tried by a move within one point. Every state
      is safe, of a copy always and of a move exactly when the destination is not
      inside the source: otherwise a move that succeeds has lost it. */
  method RunTransfer(st: Storage, plan: Plan, base: Tree, from: End, to: End, samePoint: bool,
                     quota: Option<LocalQuota>, rename: Renamed)
    returns (ok: bool, ghost copied: bool)
    requires st.nodes == base && st.done == 0 && Admitted(base, plan, from, to, samePoint)
    requires st.Valid()
    modifies st`nodes, st`tick, st`removed, st`checks, st`done, st`history
    ensures st.Valid()
    ensures plan.copy || !Nested(plan) ==>
              SafeThrough(plan, base, old(st.history), st.history) && Safe(plan, base, st.nodes)
    ensures Elsewhere(plan, base, st.nodes)
    ensures !WithinQuota(quota, plan.total) ==> !ok && st.nodes == base && st.history == old(st.history)
    ensures WithinQuota(quota, plan.total) && Willing(st.world) && (rename.Renamed? || rename.Unsupported?) ==> ok
    ensures ok ==> (Complete(plan, base, st.nodes) <==> plan.copy || !Nested(plan))
    ensures ok ==> st.done == Max(1, plan.total) && !Stopped(st.world, old(st.checks), st.checks)
    ensures plan.native && !plan.copy && rename.Renamed? && WithinQuota(quota, plan.total) ==>
              ok && st.tick == old(st.tick) && st.removed == old(st.removed) && st.nodes == Moved(plan, base)
    ensures !ok && !copied && !(plan.native && !plan.copy && rename.Unheard?) ==>
              Refused(st.world, old(st.removed), st.removed) || st.nodes == base
    ensures copied && !ok ==>
              && !plan.copy
              && (Stopped(st.world, old(st.checks), st.checks) || Refused(st.world, old(st.removed), st.removed))
              && (Stopped(st.world, old(st.checks), st.checks) ==>
                    OnlyOwned(plan, base, st.nodes) && Complete(plan, base, st.nodes))
    ensures ok && !plan.copy ==> forall p :: p in st.nodes ==> !plan.Source(p)
    ensures ok ==> !Failed(st.world, old(st.tick), st.tick) && (copied || (plan.native && !plan.copy && rename.Renamed?))
    ensures !ok ==> || !WithinQuota(quota, plan.total)
                    || (plan.native && !plan.copy && rename in {Broken, Unheard})
                    || Hampered(st.world, old(st.tick), st.tick) || Stopped(st.world, old(st.checks), st.checks)
                    || Refused(st.world, old(st.removed), st.removed)
    ensures st.done <= Max(1, plan.total)
  {
    AdmittedIsDisjointIff(base, plan, from, to, samePoint);
    assert Safe(plan, base, base) by { OnlyOwnedIsSafe(plan, base, base); }
    assert Elsewhere(plan, base, base) by { ElsewhereIfSafe(plan, base, base); }
    assert plan.native ==> samePoint;
    hide Admitted, Complete, Clear, Disjoint, Within, Moved, WithSlash, Safe, Willing, Nested, Elsewhere, OnlyOwned;
    hide Refused, Stopped;
    assert !Stopped(st.world, st.checks, st.checks) by { NoneAsked(st.world, st.checks); }
    copied := false;
    if !WithinQuota(quota, plan.total) {
      return false, copied;
    }
    if plan.native && !plan.copy && !rename.Unsupported? {
      ok := TryRename(st, plan, base, rename);
      return ok, copied;
    }
    ok, copied := CopyThenDelete(st, plan, base, from, to, samePoint);
    if ok && plan.total == 0 {
      st.done := st.done + 1;
    }
  }

  lemma OnlyOwnedIsSafe(plan: Plan, base: Tree, s: Tree)
    requires OnlyOwned(plan, base, s)
    ensures Safe(plan, base, s)
  {
  }

  /** In a safe state each source file is intact at one of the ends. */
  lemma SafeIsRecoverable(plan: Plan, base: Tree, s: Tree, from: End, to: End, samePoint: bool)
    requires Admitted(base, plan, from, to, samePoint) && Safe(plan, base, s)
    ensures Recoverable(plan, base, s)
  {
    AdmittedIsDisjointIff(base, plan, from, to, samePoint);
    if OnlyOwned(plan, base, s) {
      OnlyOwnedIsRecoverable(plan, base, s);
    } else {
      CompleteIsRecoverable(plan, base, s);
    }
  }

  // ── Two points of which one lies in the other ─────────────────────────────

  const NESTED_DISK: Tree := map["/srv/" := Dir, "/srv/b/" := Dir, "/srv/b/x" := File([1])]

  /** A point on /srv/ and a point on /srv/b/: moving the first one's directory b/
      to the second one's c/. */
  const NESTED_MOVE := Plan("/srv/b/", "/srv/b/c/", true, [Entry("/srv/b/x", false, 1)], 1, false, false)

  lemma NestedMoveIsAdmitted()
    ensures Admitted(NESTED_DISK, NESTED_MOVE, End("/srv/", "b/"), End("/srv/b/", "c/"), false)
    ensures Nested(NESTED_MOVE)
  {
    assert "/srv/" + "b/" == "/srv/b/" && "/srv/b/" + "c/" == "/srv/b/c/";
    assert NESTED_MOVE.entries[..0] == [];
    assert !("/srv/b/c/" <= "/srv/b/x") by { assert "/srv/b/x"[7] == 'x' && "/srv/b/c/"[7] == 'c'; }
    assert NESTED_MOVE.entries[0].path == "/srv/b/x";
  }

  /** The job accepts that move, succeeds, and no file is left anywhere. */
  method MoveIntoItself(world: World) returns (st: Storage)
    requires Willing(world)
    ensures forall p :: p in st.nodes ==> st.nodes[p].Dir?
  {
    NestedMoveIsAdmitted();
    st := new Storage(NESTED_DISK, world);
    var from, to := End("/srv/", "b/"), End("/srv/b/", "c/");
    var ok, copied := RunTransfer(st, NESTED_MOVE, NESTED_DISK, from, to, false, None, Unsupported);
    GoneWithTheSource(NESTED_MOVE, NESTED_DISK, st.nodes);
    forall p | p in st.nodes
      ensures st.nodes[p].Dir?
    {
      assert SameAt(NESTED_DISK, st.nodes, p);
    }
  }
}
