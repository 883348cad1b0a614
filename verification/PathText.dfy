/** Paths as text and as segments: the string operations shared by the routing code. */
module PathText {
  import opened Prelude

  ghost predicate SlashFree(s: string) { '/' !in s }

  ghost predicate AllSlashFree(segs: seq<string>) { forall i :: 0 <= i < |segs| ==> SlashFree(segs[i]) }

  ghost predicate AllNonEmpty(segs: seq<string>) { forall i :: 0 <= i < |segs| ==> segs[i] != "" }

  // ── Cutting at the first slash ────────────────────────────────────────────

  /** What precedes the first slash, and what follows it if there is one. */
  function Cut(s: string): (r: (string, Option<string>))
    ensures SlashFree(r.0)
    ensures s == r.0 + if r.1.Some? then "/" + r.1.value else ""
    ensures r.1.Some? ==> |r.1.value| < |s|
  {
    if s == "" then ("", None)
    else if s[0] == '/' then ("", Some(s[1..]))
    else
      var r := Cut(s[1..]);
      ([s[0]] + r.0, r.1)
  }

  lemma {:induction false} CutAt(x: string, tail: Option<string>)
    requires SlashFree(x)
    ensures Cut(x + if tail.Some? then "/" + tail.value else "") == (x, tail)
  {
    var s := x + if tail.Some? then "/" + tail.value else "";
    if x == "" {
      assert tail.Some? ==> s[1..] == tail.value;
    } else {
      CutAt(x[1..], tail);
      assert s[1..] == x[1..] + if tail.Some? then "/" + tail.value else "";
      assert x == [x[0]] + x[1..];
    }
  }

  /** All segments, empty ones included. */
  function Split(s: string): (segs: seq<string>)
    decreases |s|
    ensures segs != [] && AllSlashFree(segs)
  {
    var r := Cut(s);
    if r.1.None? then [r.0] else [r.0] + Split(r.1.value)
  }

  /** Every segment with a slash before it. */
  function Text(segs: seq<string>): string {
    if segs == [] then "" else "/" + segs[0] + Text(segs[1..])
  }

  /** Segments with slashes between them. */
  function Join(segs: seq<string>): string {
    if segs == [] then ""
    else if |segs| == 1 then segs[0]
    else segs[0] + "/" + Join(segs[1..])
  }

  lemma {:induction false} SplitThenText(s: string)
    ensures Text(Split(s)) == "/" + s
    decreases |s|
  {
    var r := Cut(s);
    if r.1.Some? {
      SplitThenText(r.1.value);
      assert Split(s)[1..] == Split(r.1.value);
    }
  }

  lemma SplitStep(x: string, tail: string)
    requires SlashFree(x)
    ensures Split(x) == [x] && Split(x + "/" + tail) == [x] + Split(tail)
  {
    CutAt(x, None);
    CutAt(x, Some(tail));
    assert x + "" == x && x + ("/" + tail) == x + "/" + tail;
  }

  lemma {:induction false} JoinStep(segs: seq<string>)
    requires segs != []
    ensures Text(segs) == "/" + Join(segs)
  {
    if |segs| > 1 {
      JoinStep(segs[1..]);
    } else {
      assert segs[1..] == [];
      assert Text(segs[1..]) == "";
    }
  }

  lemma JoinNothing()
    ensures Join([]) == ""
  {
  }

  lemma {:induction false} JoinPush(segs: seq<string>, part: string)
    ensures Join(segs + [part]) == if segs == [] then part else Join(segs) + "/" + part
  {
    if |segs| > 1 {
      JoinPush(segs[1..], part);
      assert (segs + [part])[1..] == segs[1..] + [part];
    } else if |segs| == 1 {
      assert (segs + [part])[1..] == [part];
    }
  }

  lemma {:induction false} TextThenSplit(segs: seq<string>)
    requires segs != [] && AllSlashFree(segs)
    ensures Split(Join(segs)) == segs
  {
    hide Split;
    if |segs| == 1 {
      SplitStep(segs[0], "");
    } else {
      SplitStep(segs[0], Join(segs[1..]));
      TextThenSplit(segs[1..]);
    }
  }

  lemma {:induction false} TextAppend(a: seq<string>, b: seq<string>)
    ensures Text(a + b) == Text(a) + Text(b)
  {
    if a == [] {
      assert a + b == b;
    } else {
      TextAppend(a[1..], b);
      assert (a + b)[1..] == a[1..] + b;
    }
  }

  lemma CutTail(segs: seq<string>)
    requires segs != [] && AllSlashFree(segs)
    ensures Cut(Join(segs)) == (segs[0], if |segs| == 1 then None else Some(Join(segs[1..])))
  {
    if |segs| == 1 {
      CutAt(segs[0], None);
      assert segs[0] + "" == segs[0];
    } else {
      CutAt(segs[0], Some(Join(segs[1..])));
      assert segs[0] + ("/" + Join(segs[1..])) == Join(segs);
    }
  }

  /** Text comparison with the trailing slash is exactly segment prefix. */
  lemma {:induction false} PrefixIff(a: seq<string>, b: seq<string>)
    requires AllSlashFree(a) && AllSlashFree(b)
    ensures (Text(b) == Text(a) || Text(a) + "/" <= Text(b)) <==> a <= b
    ensures a <= b ==> Text(b) == Text(a) + Text(b[|a|..])
  {
    if a <= b {
      TextAppend(a, b[|a|..]);
      assert b == a + b[|a|..];
    }
    if Text(b) == Text(a) || Text(a) + "/" <= Text(b) {
      TextPrefix(a, b);
    }
  }

  lemma {:induction false} TextPrefix(a: seq<string>, b: seq<string>)
    requires AllSlashFree(a) && AllSlashFree(b)
    requires Text(b) == Text(a) || Text(a) + "/" <= Text(b)
    ensures a <= b
  {
    if a != [] {
      assert b != [];
      var u, v := Text(a[1..]), Text(b[1..]);
      assert Text(a) == "/" + a[0] + u && Text(b) == "/" + b[0] + v;
      assert (u == "" || u[0] == '/') && (v == "" || v[0] == '/');
      hide Text;
      SameHead(a[0], u, b[0], v);
      TextPrefix(a[1..], b[1..]);
    }
  }

  lemma SameHead(x: string, u: string, y: string, v: string)
    requires SlashFree(x) && SlashFree(y)
    requires (u == "" || u[0] == '/') && (v == "" || v[0] == '/')
    requires "/" + y + v == "/" + x + u || "/" + x + u + "/" <= "/" + y + v
    ensures x == y && (v == u || u + "/" <= v)
  {
    var s, t := y + v, x + u;
    assert ("/" + y + v)[1..] == s && ("/" + x + u)[1..] == t;
    assert s == t || t + "/" <= s by {
      if "/" + x + u + "/" <= "/" + y + v {
        assert ("/" + x + u + "/")[1..] == t + "/";
        assert ("/" + y + v)[1..] == s;
      }
    }
    assert forall k :: 0 <= k < |y| ==> s[k] == y[k];
    assert forall k :: 0 <= k < |x| ==> s[k] == x[k];
    assert |x| < |s| ==> s[|x|] == '/' by {
      if |x| < |s| && u != "" {
        assert t[|x|] == '/';
      }
    }
    assert |y| < |s| ==> s[|y|] == '/';
    assert |x| == |y|;
    assert s[|x|..] == v && t[|x|..] == u;
  }

  // ── Trimming and normalising ──────────────────────────────────────────────

  function TrimStart(s: string): (r: string)
    ensures |r| <= |s| && (r == "" || r[0] != '/')
  {
    if s != "" && s[0] == '/' then TrimStart(s[1..]) else s
  }

  function TrimEnd(s: string): (r: string)
    ensures r <= s && (r == "" || r[|r| - 1] != '/')
  {
    if s != "" && s[|s| - 1] == '/' then TrimEnd(s[..|s| - 1]) else s
  }

  function Trim(s: string): string { TrimEnd(TrimStart(s)) }

  predicate OnlySlashes(s: string) { forall c <- s :: c == '/' }

  /** Trimming takes slashes off both ends and nothing else. */
  lemma TrimTakesSlashes(s: string) returns (before: string, after: string)
    ensures s == before + Trim(s) + after && OnlySlashes(before) && OnlySlashes(after)
    ensures Trim(s) == "" || (Trim(s)[0] != '/' && Trim(s)[|Trim(s)| - 1] != '/')
  {
    before := StartTakesSlashes(s);
    after := EndTakesSlashes(TrimStart(s));
    hide TrimStart, TrimEnd;
    assert Trim(s) != "" ==> Trim(s)[0] == TrimStart(s)[0];
  }

  lemma {:induction false} StartTakesSlashes(s: string) returns (before: string)
    ensures s == before + TrimStart(s) && OnlySlashes(before)
  {
    if s != "" && s[0] == '/' {
      var more := StartTakesSlashes(s[1..]);
      before := "/" + more;
      OneMoreSlash(s, more, TrimStart(s[1..]));
    } else {
      before := "";
    }
  }

  lemma OneMoreSlash(s: string, more: string, rest: string)
    requires s != "" && s[0] == '/' && s[1..] == more + rest
    ensures s == "/" + more + rest
  {
    assert s == [s[0]] + s[1..];
  }

  lemma {:induction false} EndTakesSlashes(s: string) returns (after: string)
    ensures s == TrimEnd(s) + after && OnlySlashes(after)
  {
    if s != "" && s[|s| - 1] == '/' {
      var more := EndTakesSlashes(s[..|s| - 1]);
      after := more + "/";
      assert s == s[..|s| - 1] + "/";
    } else {
      after := "";
    }
  }

  function Normalize(path: string): string {
    if Trim(path) == "" then "/" else "/" + Trim(path)
  }

  /** The segments of a path; inner empty ones are kept, as the text keeps them. */
  function Segments(path: string): (segs: seq<string>)
    ensures AllSlashFree(segs)
  {
    if Trim(path) == "" then [] else Split(Trim(path))
  }

  lemma NormalizeIsText(path: string)
    ensures Normalize(path) == if Segments(path) == [] then "/" else Text(Segments(path))
  {
    SplitThenText(Trim(path));
  }

  /** Segments with non-empty ends survive a trip through text, whatever slashes
      are put around them. */
  lemma SegmentsOfText(segs: seq<string>, tail: string)
    requires AllSlashFree(segs) && (segs != [] ==> segs[0] != "" && segs[|segs| - 1] != "")
    requires tail == "" || tail == "/"
    ensures Segments(Text(segs) + tail) == segs && Segments(Join(segs) + tail) == segs
    ensures segs != [] ==> Trim(Text(segs) + tail) == Join(segs) && Join(segs) != ""
  {
    if segs != [] {
      SegmentsOfJoin(segs, tail);
    } else {
      assert TrimStart("/") == "";
    }
  }

  lemma SegmentsOfJoin(segs: seq<string>, tail: string)
    requires AllSlashFree(segs) && segs != [] && segs[0] != "" && segs[|segs| - 1] != ""
    requires tail == "" || tail == "/"
    ensures Segments(Text(segs) + tail) == segs && Segments(Join(segs) + tail) == segs
    ensures Trim(Text(segs) + tail) == Join(segs) && Join(segs) != ""
  {
    hide Text, Join, Split, Trim;
    JoinStep(segs);
    EndsOfJoin(segs);
    TextThenSplit(segs);
    Trimmed(Join(segs), tail);
  }

  lemma Trimmed(j: string, tail: string)
    requires j != "" && j[0] != '/' && j[|j| - 1] != '/' && (tail == "" || tail == "/")
    ensures Trim(j + tail) == j && Trim("/" + j + tail) == j
  {
    assert TrimStart(j + tail) == j + tail;
    assert ("/" + j + tail)[1..] == j + tail;
    assert TrimEnd(j) == j;
    if tail == "/" {
      assert (j + tail)[..|j + tail| - 1] == j;
    } else {
      assert j + tail == j;
    }
  }

  lemma {:induction false} EndsOfJoin(segs: seq<string>)
    requires segs != [] && segs[0] != "" && segs[|segs| - 1] != "" && AllSlashFree(segs)
    ensures Join(segs) != "" && Join(segs)[0] != '/' && Join(segs)[|Join(segs)| - 1] != '/'
  {
    if |segs| > 1 && segs[1..] != [""] {
      EndsOfTail(segs[1..]);
    }
  }

  lemma {:induction false} EndsOfTail(segs: seq<string>)
    requires segs != [] && segs[|segs| - 1] != "" && AllSlashFree(segs)
    ensures Join(segs) != "" && Join(segs)[|Join(segs)| - 1] != '/'
  {
    if |segs| > 1 {
      EndsOfTail(segs[1..]);
    }
  }
}
