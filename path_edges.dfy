/**
 * The edges `build_dependency_graph` adds for one path of a listing:
 * with `dirs = path.split('/')[:-1]`, one edge from each ancestor directory
 * (the root `.` first) to the next, then one from the containing directory
 * (or `.`) to the path itself.
 */
module Paths {
  import opened PyStr

  /** `parent -> child` in the containment graph. */
  datatype Edge = Edge(parent: string, child: string)

  /** The key under which top-level names are filed. */
  const Root: string := "."

  /** The key for the first `k` segments: `.` for none, else them joined by `/`. */
  function Ancestor(parts: seq<string>, k: nat): string
    requires k <= |parts|
  {
    if k == 0 then Root else Join(parts[..k], '/')
  }

  /** The edges added for `path`, in the order they are added: edge `k`
      goes from the first `k` segments to the first `k + 1`; the last one
      ends at the whole path. */
  function PathEdges(path: string): (edges: seq<Edge>)
    ensures |edges| == Count(path, '/') + 1
  {
    EdgesUpTo(Split(path, '/'), |Split(path, '/')|)
  }

  /** The first `n` of the edges for the segments `parts`. */
  function EdgesUpTo(parts: seq<string>, n: nat): (edges: seq<Edge>)
    requires n <= |parts|
    ensures |edges| == n
    decreases n
  {
    if n == 0 then [] else EdgesUpTo(parts, n - 1) + [Edge(Ancestor(parts, n - 1), Join(parts[..n], '/'))]
  }

  lemma {:induction false} EdgesUpToAt(parts: seq<string>, n: nat, k: nat)
    requires k < n <= |parts|
    ensures EdgesUpTo(parts, n)[k] == Edge(Ancestor(parts, k), Join(parts[..k + 1], '/'))
    decreases n
  {
    if k < n - 1 {
      EdgesUpToAt(parts, n - 1, k);
    }
  }

  /** Edge `k` goes from the first `k` segments to the first `k + 1`. */
  lemma PathEdgesAt(path: string, k: nat)
    requires k < |PathEdges(path)|
    ensures |PathEdges(path)| == |Split(path, '/')|
    ensures PathEdges(path)[k] == Edge(Ancestor(Split(path, '/'), k), Join(Split(path, '/')[..k + 1], '/'))
  {
    EdgesUpToAt(Split(path, '/'), |Split(path, '/')|, k);
  }

  /** Rank of a key: `.` is 0, any other name one more than its slashes. */
  function Rank(name: string): nat {
    if name == Root then 0 else Count(name, '/') + 1
  }

  /** The edges form a chain from `.` to the path: each edge starts where the
      previous one ended. */
  lemma PathEdgesChain(path: string)
    ensures var es := PathEdges(path);
            es[0].parent == Root && es[|es| - 1].child == path
            && forall k :: 0 <= k < |es| - 1 ==> es[k].child == es[k + 1].parent
  {
    var es := PathEdges(path);
    PathEdgesAt(path, 0);
    PathEdgesEnd(path);
    forall k | 0 <= k < |es| - 1
      ensures es[k].child == es[k + 1].parent
    {
      PathEdgesLink(path, k);
    }
  }

  lemma PathEdgesEnd(path: string)
    ensures PathEdges(path)[|PathEdges(path)| - 1].child == path
  {
    var parts := Split(path, '/');
    JoinSplit(path, '/');
    PathEdgesAt(path, |parts| - 1);
    assert parts[..|parts|] == parts;
  }

  lemma PathEdgesLink(path: string, k: nat)
    requires k + 1 < |PathEdges(path)|
    ensures PathEdges(path)[k].child == PathEdges(path)[k + 1].parent
  {
    PathEdgesAt(path, k);
    PathEdgesAt(path, k + 1);
  }

  /** Past the first edge, each child is its parent, a slash and one segment
      of the path: the child extends the parent and is strictly longer. */
  lemma PathEdgesExtend(path: string, k: nat)
    requires 0 < k < |PathEdges(path)|
    ensures var e := PathEdges(path)[k];
            e.child == e.parent + "/" + Split(path, '/')[k]
            && |e.parent| < |e.child| && e.child[..|e.parent|] == e.parent
  {
    var parts := Split(path, '/');
    PathEdgesAt(path, k);
    assert parts[..k + 1] == parts[..k] + [parts[k]];
    JoinSnoc(parts[..k], parts[k], '/');
    var e := PathEdges(path)[k];
    assert e.child == e.parent + ("/" + parts[k]);
  }

  /** A top-level name (no slash) is filed under `.` and nothing else is added. */
  lemma TopLevelPath(path: string)
    requires '/' !in path
    ensures PathEdges(path) == [Edge(Root, path)]
  {
    CountAbsent(path, '/');
    PathEdgesChain(path);
  }

  /** Joined segments have one slash fewer than segments. */
  lemma {:induction false} CountJoin(parts: seq<string>)
    requires parts != []
    requires forall i :: 0 <= i < |parts| ==> '/' !in parts[i]
    ensures Count(Join(parts, '/'), '/') == |parts| - 1
    decreases |parts|
  {
    if |parts| == 1 {
      CountAbsent(parts[0], '/');
    } else {
      CountJoin(parts[1..]);
      CountAbsent(parts[0], '/');
      CountAppend(parts[0], ['/'], '/');
      CountAppend(parts[0] + ['/'], Join(parts[1..], '/'), '/');
    }
  }

  /** The first `m` segments of a path whose first segment is not `.` never
      join to `.`, and have rank `m`. */
  lemma PrefixRank(path: string, m: nat)
    requires 0 < m <= |Split(path, '/')| && Split(path, '/')[0] != Root
    ensures Rank(Join(Split(path, '/')[..m], '/')) == m
  {
    var parts := Split(path, '/');
    var pre := parts[..m];
    CountJoin(pre);
    if m == 1 {
      assert Join(pre, '/') == parts[0];
    } else {
      assert Count(Root, '/') == 0;
    }
  }

  /** Every edge goes exactly one level deeper, unless the path starts with a
      `.` segment (git never lists one). */
  lemma PathEdgesRank(path: string, k: nat)
    requires k < |PathEdges(path)| && Split(path, '/')[0] != Root
    ensures Rank(PathEdges(path)[k].child) == Rank(PathEdges(path)[k].parent) + 1
  {
    PathEdgesAt(path, k);
    PrefixRank(path, k + 1);
    if k > 0 {
      PrefixRank(path, k);
    }
  }

  /** Without that condition the root can point to itself. */
  lemma RootSelfLoop()
    ensures PathEdges("./x")[0] == Edge(Root, Root)
  {
    var s := "./x";
    assert s[1..] == "/x" && s[1..][1..] == "x";
    SplitNoSep("x", '/');
    var rest := Split("/x", '/');
    assert rest == ["", "x"];
    assert [s[0]] + rest[0] == ".";
    assert Split(s, '/') == [[s[0]] + rest[0]] + rest[1..];
    assert Split(s, '/')[..1] == ["."];
    PathEdgesAt(s, 0);
  }
}
