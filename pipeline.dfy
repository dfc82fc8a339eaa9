/**
 * `main` without argument parsing, printing and Graphviz: find the commits
 * holding the file; stop when there are none; otherwise build the graph and
 * write its DOT text.
 */
module Pipeline {
  import opened Wrappers
  import opened Paths
  import opened LsTree
  import CommitFilter
  import DependencyGraph
  import Dot

  /** How `main` ends. */
  datatype Outcome =
    | NoCommits                                // the message is printed and the exit status is 0
    | Drawn(dot: string)                       // the text handed on to `visualize_graph`
    | Failed(error: CommitFilter.FilterError)  // a git call fails (exit status 1) or a line does not unpack

  /** `main` with git's output read from `repo`; the graph is built only when
      some commit holds the file. */
  method Run(repo: CommitFilter.Repo, fileHash: string) returns (out: Outcome, ghost orders: seq<seq<string>>)
    ensures CommitFilter.CommitsWithFile(repo, fileHash).Err? ==>
              out == Failed(CommitFilter.CommitsWithFile(repo, fileHash).error)
    ensures out.NoCommits? <==> CommitFilter.CommitsWithFile(repo, fileHash) == Ok([])
    ensures var found := CommitFilter.CommitsWithFile(repo, fileHash);
            found.Ok? && found.value != [] ==>
              var built := DependencyGraph.BuildEdges(repo, found.value);
              (built.Err? ==> out == Failed(built.error))
              && (built.Ok? ==>
                    var keys := DependencyGraph.ParentOrder(built.value);
                    Dot.Lists(keys, DependencyGraph.ChildMap(built.value), orders)
                    && out == Drawn(Dot.DotText(keys, orders)))
  {
    orders := [];
    var found := CommitFilter.GetCommitsWithFile(repo, fileHash);
    if found.Err? {
      return Failed(found.error), orders;
    }
    var commits := found.value;
    if commits == [] {
      return NoCommits, orders;
    }
    var graph := DependencyGraph.BuildDependencyGraph(repo, commits);
    if graph.Err? {
      return Failed(graph.error), orders;
    }
    DependencyGraph.KeysMatchChildren(graph.value.edges);
    var dot;
    dot, orders := Dot.GenerateDot(graph.value.keys, graph.value.children);
    out := Drawn(dot);
  }

  /** `main` stops early exactly when every commit git lists was searched
      and none of them holds the file. */
  lemma NoCommitsMeansNoFile(repo: CommitFilter.Repo, fileHash: string)
    ensures CommitFilter.CommitsWithFile(repo, fileHash) == Ok([]) <==>
              repo.revList.Some?
              && CommitFilter.Filter(repo, repo.revList.value, fileHash).Ok?
              && forall c :: c in repo.revList.value ==> !CommitFilter.HasFile(repo, c, fileHash)
  {
    if repo.revList.Some? && CommitFilter.Filter(repo, repo.revList.value, fileHash).Ok? {
      var all := repo.revList.value;
      CommitFilter.FilterIsSelected(repo, all, fileHash);
      var sel := CommitFilter.Selected(repo, all, fileHash);
      forall c | c in all
        ensures c in sel <==> CommitFilter.HasFile(repo, c, fileHash)
      {
        CommitFilter.SelectedMembers(repo, all, fileHash, c);
      }
      if sel != [] {
        assert sel[0] in sel;
        CommitFilter.SelectedMembers(repo, all, fileHash, sel[0]);
      }
    }
  }

  /** Every file with the hash, in every commit found, is a node of the graph
      that is drawn: some edge ends at its path. */
  lemma MatchedFileDrawn(repo: CommitFilter.Repo, fileHash: string, c: string)
    requires CommitFilter.CommitsWithFile(repo, fileHash).Ok?
    requires c in CommitFilter.CommitsWithFile(repo, fileHash).value
    requires DependencyGraph.BuildEdges(repo, CommitFilter.CommitsWithFile(repo, fileHash).value).Ok?
    ensures c in repo.lsTree
    ensures forall k :: 0 <= k < |repo.lsTree[c]| && CommitFilter.Hit(ParseLine(repo.lsTree[c][k]), fileHash) ==>
              exists e :: e in DependencyGraph.BuildEdges(repo, CommitFilter.CommitsWithFile(repo, fileHash).value).value
                          && e.child == ParseLine(repo.lsTree[c][k]).value.path
  {
    var all := repo.revList.value;
    var found := CommitFilter.CommitsWithFile(repo, fileHash).value;
    CommitFilter.FilterIsSelected(repo, all, fileHash);
    CommitFilter.SelectedMembers(repo, all, fileHash, c);
    var lines := repo.lsTree[c];
    var rs := ParseAll(lines);
    DependencyGraph.BuildEdgesListed(repo, found);
    DependencyGraph.ListingPathsAt(rs);
    var paths := DependencyGraph.ListingPaths(rs).value;
    forall k | 0 <= k < |lines| && CommitFilter.Hit(ParseLine(lines[k]), fileHash)
      ensures exists e :: e in DependencyGraph.BuildEdges(repo, found).value
                          && e.child == ParseLine(lines[k]).value.path
    {
      ParseAllAt(lines, k);
      var path := paths[k];
      PathEdgesEnd(path);
      var e := PathEdges(path)[|PathEdges(path)| - 1];
      DependencyGraph.PathsEdgesMembers(paths, e);
      assert e in DependencyGraph.CommitEdges(repo, c);
      DependencyGraph.BuildEdgesMembers(repo, found, e);
    }
  }
}
