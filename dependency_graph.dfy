/**
 * `build_dependency_graph`: a `defaultdict(set)` from each directory key to
 * the names directly inside it, filled from the listings of the given
 * commits. Keys keep the order in which they were first inserted (Python
 * dicts are ordered); child sets absorb duplicates.
 */
module DependencyGraph {
  import opened Wrappers
  import opened PyStr
  import opened LsTree
  import opened Paths
  import CommitFilter
  import Seqs

  /** The parents of a sequence of edges, in the order of their first edge. */
  function ParentOrder(edges: seq<Edge>): seq<string>
    decreases |edges|
  {
    if edges == [] then []
    else
      var keys := ParentOrder(edges[..|edges| - 1]);
      var p := edges[|edges| - 1].parent;
      if p in keys then keys else keys + [p]
  }

  /** Each parent of `edges` mapped to the set of its children, built edge
      by edge. */
  function ChildMap(edges: seq<Edge>): map<string, set<string>>
    decreases |edges|
  {
    if edges == [] then map[]
    else
      var m := ChildMap(edges[..|edges| - 1]);
      var e := edges[|edges| - 1];
      m[e.parent := (if e.parent in m then m[e.parent] else {}) + {e.child}]
  }

  /** The graph `build_dependency_graph` returns, updated in place. */
  class Graph {
    /** The dict's keys, in insertion order. */
    var keys: seq<string>
    /** The dict itself: each key's set of children. */
    var children: map<string, set<string>>
    /** Every `graph[parent].add(child)` so far, in order. */
    ghost var edges: seq<Edge>

    ghost predicate Valid()
      reads this
    {
      keys == ParentOrder(edges) && children == ChildMap(edges)
    }

    /** `defaultdict(set)`: no keys yet. */
    constructor ()
      ensures Valid() && edges == [] && keys == [] && children == map[]
    {
      keys := [];
      children := map[];
      edges := [];
    }

    /** `graph[parent].add(child)`: a missing key is first inserted, at the
        end of the key order, with an empty set. */
    method Add(parent: string, child: string)
      requires Valid()
      modifies this
      ensures Valid() && edges == old(edges) + [Edge(parent, child)]
      ensures keys == if parent in old(keys) then old(keys) else old(keys) + [parent]
      ensures children == old(children)[parent :=
                (if parent in old(children) then old(children)[parent] else {}) + {child}]
    {
      KeysMatchChildren(edges);
      assert (edges + [Edge(parent, child)])[..|edges|] == edges;
      if parent !in children {
        keys := keys + [parent];
        children := children[parent := {}];
      }
      children := children[parent := children[parent] + {child}];
      edges := edges + [Edge(parent, child)];
    }
  }

  /** The paths of a listing's lines, in order, or the first line that does
      not unpack. */
  function ListingPaths(rs: seq<CommitFilter.Parsed>): Result<seq<string>, CommitFilter.BadLine>
    decreases |rs|
  {
    if rs == [] then Ok([])
    else
      var done :- ListingPaths(rs[..|rs| - 1]);
      match rs[|rs| - 1]
        case Err(e) => Err(CommitFilter.BadLine(|rs| - 1, e))
        case Ok(entry) => Ok(done + [entry.path])
  }

  /** A listing that unpacks gives one path per line, in line order. */
  lemma {:induction false} ListingPathsAt(rs: seq<CommitFilter.Parsed>)
    requires ListingPaths(rs).Ok?
    ensures |ListingPaths(rs).value| == |rs|
    ensures forall k :: 0 <= k < |rs| ==> rs[k].Ok? && ListingPaths(rs).value[k] == rs[k].value.path
    decreases |rs|
  {
    if rs != [] {
      var n := |rs| - 1;
      ListingPathsAt(rs[..n]);
      forall k | 0 <= k < n
        ensures rs[k].Ok? && ListingPaths(rs).value[k] == rs[k].value.path
      {
        assert rs[..n][k] == rs[k];
      }
    }
  }

  /** The edges added for each path in turn. */
  function PathsEdges(paths: seq<string>): seq<Edge> {
    FlatMap(paths, PathEdges)
  }

  /** `f` applied to each element in turn, the results concatenated. */
  function FlatMap<T, U>(xs: seq<T>, f: T -> seq<U>): seq<U>
    decreases |xs|
  {
    if xs == [] then [] else FlatMap(xs[..|xs| - 1], f) + f(xs[|xs| - 1])
  }

  /** The edges of all listings of the commits, in order, or the first failure:
      an ls-tree call that fails or a line that does not unpack
      (`build_dependency_graph` catches neither). */
  function BuildEdges(repo: CommitFilter.Repo, commits: seq<string>): Result<seq<Edge>, CommitFilter.FilterError>
    decreases |commits|
  {
    if commits == [] then Ok([])
    else
      var done :- BuildEdges(repo, commits[..|commits| - 1]);
      var c := commits[|commits| - 1];
      if c !in repo.lsTree then Err(CommitFilter.LsTreeFailed(c))
      else match ListingPaths(ParseAll(repo.lsTree[c]))
        case Err(bad) => Err(CommitFilter.Unpack(c, bad.index, bad.error))
        case Ok(paths) => Ok(done + PathsEdges(paths))
  }

  /** `build_dependency_graph` with the ls-tree output read from `repo`. */
  method BuildDependencyGraph(repo: CommitFilter.Repo, commits: seq<string>)
    returns (r: Result<Graph, CommitFilter.FilterError>)
    ensures BuildEdges(repo, commits).Err? ==> r == Err(BuildEdges(repo, commits).error)
    ensures BuildEdges(repo, commits).Ok? ==>
              r.Ok? && fresh(r.value) && r.value.Valid() && r.value.edges == BuildEdges(repo, commits).value
  {
    var graph := new Graph();
    var i := 0;
    while i < |commits|
      invariant i <= |commits| && fresh(graph) && graph.Valid()
      invariant BuildEdges(repo, commits[..i]) == Ok(graph.edges)
    {
      var commit := commits[i];
      if commit !in repo.lsTree {
        BuildSteps(repo, commits, i);
        BuildErrorPersists(repo, commits, i + 1);
        return Err(CommitFilter.LsTreeFailed(commit));
      }
      var treeObjects := repo.lsTree[commit];
      ghost var rs := ParseAll(treeObjects);
      ghost var before := graph.edges;
      ghost var paths: seq<string> := [];
      var j := 0;
      while j < |treeObjects|
        invariant j <= |treeObjects| && fresh(graph) && graph.Valid()
        invariant ListingPaths(rs[..j]) == Ok(paths)
        invariant graph.edges == before + PathsEdges(paths)
      {
        var parsed := ParseLine(treeObjects[j]);
        ParseAllAt(treeObjects, j);
        ListingSteps(rs, j);
        if parsed.Err? {
          ListingErrorPersists(rs, j + 1);
          BuildSteps(repo, commits, i);
          BuildErrorPersists(repo, commits, i + 1);
          return Err(CommitFilter.Unpack(commit, j, parsed.error));
        }
        AddPathEdges(graph, parsed.value.path);
        PathsEdgesSnoc(paths, parsed.value.path);
        AppendAssoc(before, PathsEdges(paths), PathEdges(parsed.value.path));
        paths := paths + [parsed.value.path];
        j := j + 1;
      }
      assert rs[..j] == rs;
      BuildSteps(repo, commits, i);
      i := i + 1;
    }
    assert commits[..i] == commits;
    return Ok(graph);
  }

  /** One more line of a listing: its path is appended, or it is the first
      line that fails. */
  lemma ListingSteps(rs: seq<CommitFilter.Parsed>, j: nat)
    requires j < |rs| && ListingPaths(rs[..j]).Ok?
    ensures rs[j].Err? ==> ListingPaths(rs[..j + 1]) == Err(CommitFilter.BadLine(j, rs[j].error))
    ensures rs[j].Ok? ==> ListingPaths(rs[..j + 1]) == Ok(ListingPaths(rs[..j]).value + [rs[j].value.path])
  {
    assert rs[..j + 1][..j] == rs[..j];
  }

  /** One more commit: its listing's edges are appended, or it is the first
      commit that fails. */
  lemma BuildSteps(repo: CommitFilter.Repo, commits: seq<string>, i: nat)
    requires i < |commits| && BuildEdges(repo, commits[..i]).Ok?
    ensures commits[i] !in repo.lsTree ==>
              BuildEdges(repo, commits[..i + 1]) == Err(CommitFilter.LsTreeFailed(commits[i]))
    ensures commits[i] in repo.lsTree && ListingPaths(ParseAll(repo.lsTree[commits[i]])).Err? ==>
              var bad := ListingPaths(ParseAll(repo.lsTree[commits[i]])).error;
              BuildEdges(repo, commits[..i + 1]) == Err(CommitFilter.Unpack(commits[i], bad.index, bad.error))
    ensures commits[i] in repo.lsTree && ListingPaths(ParseAll(repo.lsTree[commits[i]])).Ok? ==>
              BuildEdges(repo, commits[..i + 1])
                == Ok(BuildEdges(repo, commits[..i]).value + PathsEdges(ListingPaths(ParseAll(repo.lsTree[commits[i]])).value))
  {
    assert commits[..i + 1][..i] == commits[..i];
  }

  /** The body of the loop over one listing's entries: the edges from `.`
      down through the directories of `path` to `path` itself. */
  method AddPathEdges(graph: Graph, path: string)
    requires graph.Valid()
    modifies graph
    ensures graph.Valid() && graph.edges == old(graph.edges) + PathEdges(path)
  {
    var parts := Split(path, '/');
    var dirs := parts[..|parts| - 1];
    var k := 0;
    while k < |dirs|
      invariant k <= |dirs| && graph.Valid()
      invariant graph.edges == old(graph.edges) + EdgesUpTo(parts, k)
    {
      var parent := if k > 0 then Join(dirs[..k], '/') else Root;
      var child := Join(dirs[..k + 1], '/');
      DirEdge(path, parts, dirs, k);
      graph.Add(parent, child);
      AppendAssoc(old(graph.edges), EdgesUpTo(parts, k), [Edge(parent, child)]);
      k := k + 1;
    }
    var parent := if |dirs| > 0 then Join(dirs, '/') else Root;
    LastEdge(path, parts, dirs);
    graph.Add(parent, path);
    AppendAssoc(old(graph.edges), EdgesUpTo(parts, k), [Edge(parent, path)]);
  }

  lemma AppendAssoc<T>(a: seq<T>, b: seq<T>, c: seq<T>)
    ensures (a + b) + c == a + (b + c)
  {
  }

  lemma PathsEdgesSnoc(paths: seq<string>, path: string)
    ensures PathsEdges(paths + [path]) == PathsEdges(paths) + PathEdges(path)
  {
    assert (paths + [path])[..|paths|] == paths;
    assert FlatMap(paths + [path], PathEdges) == FlatMap(paths, PathEdges) + PathEdges(path);
  }

  /** The loop's formulas, `'/'.join(dirs[:k]) if k > 0 else '.'` to
      `'/'.join(dirs[:k+1])`, give the next edge of `PathEdges`. */
  lemma DirEdge(path: string, parts: seq<string>, dirs: seq<string>, k: nat)
    requires parts == Split(path, '/') && dirs == parts[..|parts| - 1] && k < |dirs|
    ensures EdgesUpTo(parts, k + 1)
              == EdgesUpTo(parts, k) + [Edge(if k > 0 then Join(dirs[..k], '/') else Root, Join(dirs[..k + 1], '/'))]
  {
    assert dirs[..k] == parts[..k];
    assert dirs[..k + 1] == parts[..k + 1];
  }

  /** The last edge, from the containing directory (or `.`) to the path,
      completes `PathEdges`. */
  lemma LastEdge(path: string, parts: seq<string>, dirs: seq<string>)
    requires parts == Split(path, '/') && dirs == parts[..|parts| - 1]
    ensures PathEdges(path) == EdgesUpTo(parts, |dirs|) + [Edge(if |dirs| > 0 then Join(dirs, '/') else Root, path)]
  {
    JoinSplit(path, '/');
    assert parts[..|parts|] == parts;
  }

  lemma {:induction false} ListingErrorPersists(rs: seq<CommitFilter.Parsed>, n: nat)
    requires n <= |rs| && ListingPaths(rs[..n]).Err?
    ensures ListingPaths(rs) == ListingPaths(rs[..n])
    decreases |rs| - n
  {
    if n < |rs| {
      assert rs[..n + 1][..n] == rs[..n];
      ListingErrorPersists(rs, n + 1);
    } else {
      assert rs[..n] == rs;
    }
  }

  lemma {:induction false} BuildErrorPersists(repo: CommitFilter.Repo, commits: seq<string>, n: nat)
    requires n <= |commits| && BuildEdges(repo, commits[..n]).Err?
    ensures BuildEdges(repo, commits) == BuildEdges(repo, commits[..n])
    decreases |commits| - n
  {
    if n < |commits| {
      assert commits[..n + 1][..n] == commits[..n];
      BuildErrorPersists(repo, commits, n + 1);
    } else {
      assert commits[..n] == commits;
    }
  }

  // Properties of the key order and of the child map.

  /** The keys are exactly the parents of the edges. */
  lemma {:induction false} ParentOrderMembers(edges: seq<Edge>, p: string)
    ensures p in ParentOrder(edges) <==> exists e :: e in edges && e.parent == p
    decreases |edges|
  {
    if edges != [] {
      var init := edges[..|edges| - 1];
      ParentOrderMembers(init, p);
      assert edges == init + [edges[|edges| - 1]];
    }
  }

  /** No key appears twice. */
  lemma {:induction false} ParentOrderDistinct(edges: seq<Edge>)
    ensures Seqs.Distinct(ParentOrder(edges))
    decreases |edges|
  {
    if edges != [] {
      ParentOrderDistinct(edges[..|edges| - 1]);
    }
  }

  /** The keys are the dict's keys, and each key has at least one child. */
  lemma KeysMatchChildren(edges: seq<Edge>)
    ensures forall p :: p in ParentOrder(edges) <==> p in ChildMap(edges)
    ensures forall p :: p in ChildMap(edges) ==> ChildMap(edges)[p] != {}
  {
    forall p
      ensures p in ParentOrder(edges) <==> p in ChildMap(edges)
    {
      ParentOrderMembers(edges, p);
      ChildMapMembers(edges, p, "");
    }
    forall p | p in ChildMap(edges)
      ensures ChildMap(edges)[p] != {}
    {
      ChildMapMembers(edges, p, "");
      var e :| e in edges && e.parent == p;
      ChildMapMembers(edges, p, e.child);
    }
  }

  /** The child map holds exactly the edges: a key for each parent, and under
      it each child of that parent. */
  lemma {:induction false} ChildMapMembers(edges: seq<Edge>, p: string, c: string)
    ensures p in ChildMap(edges) <==> exists e :: e in edges && e.parent == p
    ensures p in ChildMap(edges) ==> (c in ChildMap(edges)[p] <==> Edge(p, c) in edges)
    decreases |edges|
  {
    if edges != [] {
      var init := edges[..|edges| - 1];
      ChildMapMembers(init, p, c);
      assert edges == init + [edges[|edges| - 1]];
    }
  }

  lemma ChildMapSnoc(edges: seq<Edge>, e: Edge)
    ensures var m := ChildMap(edges);
            ChildMap(edges + [e]) == m[e.parent := (if e.parent in m then m[e.parent] else {}) + {e.child}]
  {
    assert (edges + [e])[..|edges|] == edges;
  }

  /** Later edges only ever append keys: the old key order is a prefix of the new. */
  lemma {:induction false} ParentOrderGrows(edges: seq<Edge>, more: seq<Edge>)
    ensures var old_ := ParentOrder(edges);
            |old_| <= |ParentOrder(edges + more)| && ParentOrder(edges + more)[..|old_|] == old_
    decreases |more|
  {
    if more != [] {
      var init := more[..|more| - 1];
      ParentOrderGrows(edges, init);
      assert (edges + more)[..|edges + more| - 1] == edges + init;
    } else {
      assert edges + more == edges;
    }
  }

  /** Later edges never remove a child. */
  lemma ChildMapGrows(edges: seq<Edge>, more: seq<Edge>, p: string)
    requires p in ChildMap(edges)
    ensures p in ChildMap(edges + more) && ChildMap(edges)[p] <= ChildMap(edges + more)[p]
  {
    ChildMapMembers(edges, p, "");
    var e :| e in edges && e.parent == p;
    assert e in edges + more;
    ChildMapMembers(edges + more, p, "");
    forall c | c in ChildMap(edges)[p]
      ensures c in ChildMap(edges + more)[p]
    {
      ChildMapMembers(edges, p, c);
      ChildMapMembers(edges + more, p, c);
    }
  }

  /** Edges already present change nothing: neither the key order nor any
      child set (re-reading a commit, or a path seen in another commit). */
  lemma AddAgainIsNoOp(edges: seq<Edge>, again: seq<Edge>)
    requires forall e :: e in again ==> e in edges
    ensures ParentOrder(edges + again) == ParentOrder(edges)
    ensures ChildMap(edges + again) == ChildMap(edges)
  {
    KnownParentsKeepOrder(edges, again);
    ChildMapOfSameEdges(edges + again, edges);
  }

  lemma {:induction false} KnownParentsKeepOrder(edges: seq<Edge>, again: seq<Edge>)
    requires forall e :: e in again ==> e in edges
    ensures ParentOrder(edges + again) == ParentOrder(edges)
    decreases |again|
  {
    if again != [] {
      var init := again[..|again| - 1];
      var last := again[|again| - 1];
      KnownParentsKeepOrder(edges, init);
      assert (edges + again)[..|edges + again| - 1] == edges + init;
      ParentOrderMembers(edges, last.parent);
    } else {
      assert edges + again == edges;
    }
  }

  /** The child map only depends on which edges occur, not on their order or
      on repetitions. */
  lemma ChildMapOfSameEdges(e1: seq<Edge>, e2: seq<Edge>)
    requires forall e :: e in e1 <==> e in e2
    ensures ChildMap(e1) == ChildMap(e2)
  {
    forall p
      ensures p in ChildMap(e1) <==> p in ChildMap(e2)
    {
      ChildMapMembers(e1, p, "");
      ChildMapMembers(e2, p, "");
    }
    forall p | p in ChildMap(e1)
      ensures ChildMap(e1)[p] == ChildMap(e2)[p]
    {
      forall c
        ensures c in ChildMap(e1)[p] <==> c in ChildMap(e2)[p]
      {
        ChildMapMembers(e1, p, c);
        ChildMapMembers(e2, p, c);
      }
    }
  }

  // Which edges the builder produces.

  /** The edges added for a list of paths are those of each path. */
  lemma PathsEdgesMembers(paths: seq<string>, e: Edge)
    ensures e in PathsEdges(paths) <==> exists k :: 0 <= k < |paths| && e in PathEdges(paths[k])
  {
    FlatMapMembers(paths, PathEdges, e);
  }

  lemma {:induction false} FlatMapMembers<T, U>(xs: seq<T>, f: T -> seq<U>, u: U)
    ensures u in FlatMap(xs, f) <==> exists k :: 0 <= k < |xs| && u in f(xs[k])
    decreases |xs|
  {
    if xs != [] {
      var n := |xs| - 1;
      var init := xs[..n];
      FlatMapMembers(init, f, u);
      if u in FlatMap(xs, f) && u !in FlatMap(init, f) {
        assert u in f(xs[n]);
      }
      if exists k :: 0 <= k < |xs| && u in f(xs[k]) {
        var k :| 0 <= k < |xs| && u in f(xs[k]);
        if k < n {
          assert init[k] == xs[k];
        }
      }
    }
  }

  /** The edges one commit contributes when its listing unpacks (none otherwise). */
  function CommitEdges(repo: CommitFilter.Repo, c: string): seq<Edge> {
    if c !in repo.lsTree then []
    else match ListingPaths(ParseAll(repo.lsTree[c]))
      case Err(_) => []
      case Ok(paths) => PathsEdges(paths)
  }

  /** When the builder succeeds, every commit has a listing that unpacks. */
  lemma {:induction false} BuildEdgesListed(repo: CommitFilter.Repo, commits: seq<string>)
    requires BuildEdges(repo, commits).Ok?
    ensures forall c :: c in commits ==> c in repo.lsTree && ListingPaths(ParseAll(repo.lsTree[c])).Ok?
    decreases |commits|
  {
    if commits != [] {
      var n := |commits| - 1;
      assert commits[..n + 1] == commits;
      BuildSteps(repo, commits, n);
      BuildEdgesListed(repo, commits[..n]);
      assert commits == commits[..n] + [commits[n]];
    }
  }

  /** The builder's edges are those of the listings of the given commits. */
  lemma BuildEdgesMembers(repo: CommitFilter.Repo, commits: seq<string>, e: Edge)
    requires BuildEdges(repo, commits).Ok?
    ensures e in BuildEdges(repo, commits).value <==> exists c :: c in commits && e in CommitEdges(repo, c)
  {
    var f := c => CommitEdges(repo, c);
    BuildEdgesFlat(repo, commits);
    FlatMapElements(commits, f, e);
  }

  /** When the builder succeeds, its edges are each commit's edges in turn. */
  lemma {:induction false} BuildEdgesFlat(repo: CommitFilter.Repo, commits: seq<string>)
    requires BuildEdges(repo, commits).Ok?
    ensures BuildEdges(repo, commits).value == FlatMap(commits, c => CommitEdges(repo, c))
    decreases |commits|
  {
    if commits != [] {
      var n := |commits| - 1;
      assert commits[..n + 1] == commits;
      BuildSteps(repo, commits, n);
      BuildEdgesFlat(repo, commits[..n]);
    }
  }

  lemma FlatMapElements<T, U>(xs: seq<T>, f: T -> seq<U>, u: U)
    ensures u in FlatMap(xs, f) <==> exists x :: x in xs && u in f(x)
  {
    FlatMapMembers(xs, f, u);
    if exists x :: x in xs && u in f(x) {
      var x :| x in xs && u in f(x);
      var k :| 0 <= k < |xs| && xs[k] == x;
    }
  }

  /** Commit order does not matter: any two commit lists holding the same
      commits that both build give the same child map. */
  lemma CommitOrderIrrelevant(repo: CommitFilter.Repo, c1: seq<string>, c2: seq<string>)
    requires forall c :: c in c1 <==> c in c2
    requires BuildEdges(repo, c1).Ok? && BuildEdges(repo, c2).Ok?
    ensures ChildMap(BuildEdges(repo, c1).value) == ChildMap(BuildEdges(repo, c2).value)
  {
    forall e
      ensures e in BuildEdges(repo, c1).value <==> e in BuildEdges(repo, c2).value
    {
      BuildEdgesMembers(repo, c1, e);
      BuildEdgesMembers(repo, c2, e);
    }
    ChildMapOfSameEdges(BuildEdges(repo, c1).value, BuildEdges(repo, c2).value);
  }

  // No edge points back up.

  /** Every edge goes exactly one level deeper. */
  predicate Ranked(edges: seq<Edge>) {
    forall e :: e in edges ==> Rank(e.child) == Rank(e.parent) + 1
  }

  /** `w` follows edges of the graph from its first node to its last. */
  predicate IsWalk(m: map<string, set<string>>, w: seq<string>) {
    forall i :: 0 <= i < |w| - 1 ==> w[i] in m && w[i + 1] in m[w[i]]
  }

  /** Along a walk in a ranked graph the rank grows by one per step, so no
      walk of one step or more returns to where it started: the graph has
      no cycles. */
  lemma {:induction false} WalkRank(edges: seq<Edge>, w: seq<string>)
    requires Ranked(edges) && w != [] && IsWalk(ChildMap(edges), w)
    ensures Rank(w[|w| - 1]) == Rank(w[0]) + |w| - 1
    ensures |w| > 1 ==> w[|w| - 1] != w[0]
    decreases |w|
  {
    if |w| > 1 {
      var init := w[..|w| - 1];
      assert IsWalk(ChildMap(edges), init);
      WalkRank(edges, init);
      var p := w[|w| - 2];
      ChildMapMembers(edges, p, w[|w| - 1]);
      assert Edge(p, w[|w| - 1]) in edges;
    }
  }

  /** Paths that never start with a `.` segment (git never lists one) give
      ranked edges. */
  lemma PathsRanked(paths: seq<string>)
    requires forall k :: 0 <= k < |paths| ==> Split(paths[k], '/')[0] != Root
    ensures Ranked(PathsEdges(paths))
  {
    forall e | e in PathsEdges(paths)
      ensures Rank(e.child) == Rank(e.parent) + 1
    {
      PathsEdgesMembers(paths, e);
      var k :| 0 <= k < |paths| && e in PathEdges(paths[k]);
      var n :| 0 <= n < |PathEdges(paths[k])| && PathEdges(paths[k])[n] == e;
      PathEdgesRank(paths[k], n);
    }
  }

  /** The graph `build_dependency_graph` returns, when no listed path starts
      with a `.` segment, is ranked, so by `WalkRank` it has no cycles. */
  lemma BuiltRanked(repo: CommitFilter.Repo, commits: seq<string>)
    requires BuildEdges(repo, commits).Ok?
    requires forall c, k ::
               (c in commits && c in repo.lsTree && 0 <= k < |repo.lsTree[c]| && ParseLine(repo.lsTree[c][k]).Ok?)
               ==> Split(ParseLine(repo.lsTree[c][k]).value.path, '/')[0] != Root
    ensures Ranked(BuildEdges(repo, commits).value)
  {
    BuildEdgesListed(repo, commits);
    forall e | e in BuildEdges(repo, commits).value
      ensures Rank(e.child) == Rank(e.parent) + 1
    {
      BuildEdgesMembers(repo, commits, e);
      var c :| c in commits && e in CommitEdges(repo, c);
      var lines := repo.lsTree[c];
      var rs := ParseAll(lines);
      var paths := ListingPaths(rs).value;
      ListingPathsAt(rs);
      forall k | 0 <= k < |paths|
        ensures Split(paths[k], '/')[0] != Root
      {
        ParseAllAt(lines, k);
      }
      PathsRanked(paths);
    }
  }
}
