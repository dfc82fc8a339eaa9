/**
 * `get_commits_with_file`: the commits of `git rev-list --all`, in that order,
 * whose `git ls-tree -r` listing holds an entry with the wanted blob hash.
 * The scan of one listing stops at the first matching line.
 *
 * git itself is a value here: the rev-list output (None when the command
 * fails) and, per commit, the ls-tree output, both already split into lines
 * (a commit missing from the map is an ls-tree call that fails).
 */
module CommitFilter {
  import opened Wrappers
  import opened LsTree
  import opened Seqs

  datatype Repo = Repo(revList: Option<seq<string>>, lsTree: map<string, seq<string>>)

  /** Why a listing scan stopped without an answer: line `index` does not unpack. */
  datatype BadLine = BadLine(index: nat, error: ParseError)

  datatype FilterError =
    | RevListFailed                                       // CalledProcessError of `git rev-list --all`
    | LsTreeFailed(commit: string)                        // CalledProcessError of `git ls-tree -r <commit>`
    | Unpack(commit: string, index: nat, error: ParseError) // ValueError of the four-way unpack, not caught

  /** The outcome of unpacking one line. */
  type Parsed = Result<Entry, ParseError>

  /** The line unpacks and its hash is the target. */
  predicate Hit(r: Parsed, target: string) {
    r.Ok? && r.value.hash == target
  }

  /** The line unpacks and its hash is some other one. */
  predicate Miss(r: Parsed, target: string) {
    r.Ok? && r.value.hash != target
  }

  /** Every line in `[j, k)` unpacks and misses the target. */
  predicate AllMiss(rs: seq<Parsed>, j: nat, k: nat, target: string)
    requires j <= k <= |rs|
  {
    forall m :: j <= m < k ==> Miss(rs[m], target)
  }

  /** Some line unpacks to an entry with the target hash. */
  predicate Contains(rs: seq<Parsed>, target: string) {
    exists k :: 0 <= k < |rs| && Hit(rs[k], target)
  }

  /** The inner loop from line `j` on: `Ok(true)` at the first hit, `Ok(false)`
      when every line misses, an error at the first line that does not unpack. */
  function ScanFrom(rs: seq<Parsed>, j: nat, target: string): Result<bool, BadLine>
    requires j <= |rs|
    decreases |rs| - j
  {
    if j == |rs| then Ok(false)
    else match rs[j]
      case Err(e) => Err(BadLine(j, e))
      case Ok(entry) => if entry.hash == target then Ok(true) else ScanFrom(rs, j + 1, target)
  }

  /** The inner loop over the lines of one listing. */
  function Scan(lines: seq<string>, target: string): Result<bool, BadLine> {
    ScanFrom(ParseAll(lines), 0, target)
  }

  /** The outer loop over the commits, as a function of the commits already
      seen: the matching ones in order, or the first failure. */
  function Filter(repo: Repo, commits: seq<string>, target: string): Result<seq<string>, FilterError>
    decreases |commits|
  {
    if commits == [] then Ok([])
    else
      var done :- Filter(repo, commits[..|commits| - 1], target);
      var c := commits[|commits| - 1];
      if c !in repo.lsTree then Err(LsTreeFailed(c))
      else match Scan(repo.lsTree[c], target)
        case Err(bad) => Err(Unpack(c, bad.index, bad.error))
        case Ok(found) => Ok(if found then done + [c] else done)
  }

  /** The whole function: rev-list first, then the filter over its output. */
  function CommitsWithFile(repo: Repo, target: string): Result<seq<string>, FilterError> {
    match repo.revList
      case None => Err(RevListFailed)
      case Some(commits) => Filter(repo, commits, target)
  }

  /** The commit has a listing and some line of it holds the target. */
  predicate HasFile(repo: Repo, c: string, target: string) {
    c in repo.lsTree && Contains(ParseAll(repo.lsTree[c]), target)
  }

  /** The declarative answer: the commits whose listing contains the target. */
  function Selected(repo: Repo, commits: seq<string>, target: string): seq<string>
    decreases |commits|
  {
    if commits == [] then []
    else
      var c := commits[|commits| - 1];
      Selected(repo, commits[..|commits| - 1], target) + (if HasFile(repo, c, target) then [c] else [])
  }

  /** `a` is `b` with some elements left out, the rest in their order. */
  predicate IsSubsequence(a: seq<string>, b: seq<string>)
    decreases |b|
  {
    if a == [] then true
    else if b == [] then false
    else if a[|a| - 1] == b[|b| - 1] && IsSubsequence(a[..|a| - 1], b[..|b| - 1]) then true
    else IsSubsequence(a, b[..|b| - 1])
  }

  /** `get_commits_with_file` with the two git commands read from `repo`. */
  method GetCommitsWithFile(repo: Repo, fileHash: string) returns (r: Result<seq<string>, FilterError>)
    ensures r == CommitsWithFile(repo, fileHash)
  {
    if repo.revList.None? {
      return Err(RevListFailed);
    }
    var commits := repo.revList.value;
    var matching: seq<string> := [];
    var i := 0;
    while i < |commits|
      invariant i <= |commits|
      invariant Filter(repo, commits[..i], fileHash) == Ok(matching)
    {
      var commit := commits[i];
      assert commits[..i + 1][..i] == commits[..i];
      if commit !in repo.lsTree {
        FilterErrorPersists(repo, commits, i + 1, fileHash);
        return Err(LsTreeFailed(commit));
      }
      var treeObjects := repo.lsTree[commit];
      ghost var rs := ParseAll(treeObjects);
      var j := 0;
      while j < |treeObjects|
        invariant j <= |treeObjects|
        invariant Scan(treeObjects, fileHash) == ScanFrom(rs, j, fileHash)
        invariant Filter(repo, commits[..i], fileHash) == Ok(matching)
      {
        var parsed := ParseLine(treeObjects[j]);
        ParseAllAt(treeObjects, j);
        if parsed.Err? {
          FilterErrorPersists(repo, commits, i + 1, fileHash);
          return Err(Unpack(commit, j, parsed.error));
        }
        if parsed.value.hash == fileHash {
          matching := matching + [commit];
          break;
        }
        j := j + 1;
      }
      i := i + 1;
    }
    assert commits[..i] == commits;
    return Ok(matching);
  }

  /** Once a prefix of the commits fails, the whole filter fails the same way. */
  lemma {:induction false} FilterErrorPersists(repo: Repo, commits: seq<string>, n: nat, target: string)
    requires n <= |commits| && Filter(repo, commits[..n], target).Err?
    ensures Filter(repo, commits, target) == Filter(repo, commits[..n], target)
    decreases |commits| - n
  {
    if n < |commits| {
      assert commits[..n + 1][..n] == commits[..n];
      FilterErrorPersists(repo, commits, n + 1, target);
    } else {
      assert commits[..n] == commits;
    }
  }

  /** The scan answers `true` exactly when a hit comes before any bad line,
      `false` exactly when every line misses, and otherwise names the first
      line that does not unpack, all earlier lines missing. */
  lemma ScanFromCases(rs: seq<Parsed>, j: nat, target: string)
    requires j <= |rs|
    ensures ScanFrom(rs, j, target) == Ok(true) <==>
              exists k :: j <= k < |rs| && Hit(rs[k], target) && AllMiss(rs, j, k, target)
    ensures ScanFrom(rs, j, target) == Ok(false) <==> AllMiss(rs, j, |rs|, target)
    ensures ScanFrom(rs, j, target).Err? ==>
              var k := ScanFrom(rs, j, target).error.index;
              j <= k < |rs| && rs[k] == Err(ScanFrom(rs, j, target).error.error) && AllMiss(rs, j, k, target)
  {
    ScanFromTrue(rs, j, target);
    ScanFromFalse(rs, j, target);
    ScanFromErr(rs, j, target);
  }

  lemma {:induction false} ScanFromTrue(rs: seq<Parsed>, j: nat, target: string)
    requires j <= |rs|
    ensures ScanFrom(rs, j, target) == Ok(true) <==>
              exists k :: j <= k < |rs| && Hit(rs[k], target) && AllMiss(rs, j, k, target)
    decreases |rs| - j
  {
    if j < |rs| {
      ScanFromTrue(rs, j + 1, target);
      if Miss(rs[j], target) {
        if exists k :: j + 1 <= k < |rs| && Hit(rs[k], target) && AllMiss(rs, j + 1, k, target) {
          var k :| j + 1 <= k < |rs| && Hit(rs[k], target) && AllMiss(rs, j + 1, k, target);
          assert AllMiss(rs, j, k, target);
        }
        if exists k :: j <= k < |rs| && Hit(rs[k], target) && AllMiss(rs, j, k, target) {
          var k :| j <= k < |rs| && Hit(rs[k], target) && AllMiss(rs, j, k, target);
          assert k != j;
          assert AllMiss(rs, j + 1, k, target);
        }
      } else if Hit(rs[j], target) {
        assert AllMiss(rs, j, j, target);
      }
    }
  }

  lemma {:induction false} ScanFromFalse(rs: seq<Parsed>, j: nat, target: string)
    requires j <= |rs|
    ensures ScanFrom(rs, j, target) == Ok(false) <==> AllMiss(rs, j, |rs|, target)
    decreases |rs| - j
  {
    if j < |rs| {
      ScanFromFalse(rs, j + 1, target);
      if !Miss(rs[j], target) {
        assert !AllMiss(rs, j, |rs|, target);
      }
    }
  }

  lemma {:induction false} ScanFromErr(rs: seq<Parsed>, j: nat, target: string)
    requires j <= |rs|
    ensures ScanFrom(rs, j, target).Err? ==>
              var k := ScanFrom(rs, j, target).error.index;
              j <= k < |rs| && rs[k] == Err(ScanFrom(rs, j, target).error.error) && AllMiss(rs, j, k, target)
    decreases |rs| - j
  {
    if j < |rs| && Miss(rs[j], target) {
      ScanFromErr(rs, j + 1, target);
    }
  }

  /** A scan that answers says whether the listing contains the target. */
  lemma ScanAnswers(lines: seq<string>, target: string)
    requires Scan(lines, target).Ok?
    ensures Scan(lines, target).value <==> Contains(ParseAll(lines), target)
  {
    ScanFromCases(ParseAll(lines), 0, target);
  }

  /** The scan fails exactly at the first line that does not unpack, every
      line before it unpacking to another hash. */
  lemma ScanFails(lines: seq<string>, target: string)
    requires Scan(lines, target).Err?
    ensures var k := Scan(lines, target).error.index;
            k < |lines| && ParseLine(lines[k]) == Err(Scan(lines, target).error.error)
            && forall m :: 0 <= m < k ==> ParseLine(lines[m]).Ok? && ParseLine(lines[m]).value.hash != target
  {
    var rs := ParseAll(lines);
    ScanFromErr(rs, 0, target);
    var k := Scan(lines, target).error.index;
    ParseAllAt(lines, k);
    forall m | 0 <= m < k
      ensures ParseLine(lines[m]).Ok? && ParseLine(lines[m]).value.hash != target
    {
      ParseAllAt(lines, m);
      assert Miss(rs[m], target);
    }
  }

  /** Lines after the first hit are never read: they may even be malformed. */
  lemma ScanStopsAtHit(lines: seq<string>, more: seq<string>, target: string)
    requires Scan(lines, target) == Ok(true)
    ensures Scan(lines + more, target) == Ok(true)
  {
    ParseAllPrefix(lines + more, |lines|);
    assert (lines + more)[..|lines|] == lines;
    ScanFromPrefix(ParseAll(lines), ParseAll(lines + more), 0, target);
  }

  lemma {:induction false} ScanFromPrefix(rs: seq<Parsed>, all: seq<Parsed>, j: nat, target: string)
    requires j <= |rs| <= |all| && all[..|rs|] == rs && ScanFrom(rs, j, target) == Ok(true)
    ensures ScanFrom(all, j, target) == Ok(true)
    decreases |rs| - j
  {
    assert all[j] == rs[j];
    if !Hit(rs[j], target) {
      ScanFromPrefix(rs, all, j + 1, target);
    }
  }

  /** When the filter succeeds, it returns exactly the selected commits. */
  lemma {:induction false} FilterIsSelected(repo: Repo, commits: seq<string>, target: string)
    requires Filter(repo, commits, target).Ok?
    ensures Filter(repo, commits, target).value == Selected(repo, commits, target)
    decreases |commits|
  {
    if commits != [] {
      var c := commits[|commits| - 1];
      FilterIsSelected(repo, commits[..|commits| - 1], target);
      ScanAnswers(repo.lsTree[c], target);
    }
  }

  /** The selected commits are the input commits whose listing contains the
      target, and no others. */
  lemma {:induction false} SelectedMembers(repo: Repo, commits: seq<string>, target: string, c: string)
    ensures c in Selected(repo, commits, target) <==> c in commits && HasFile(repo, c, target)
    decreases |commits|
  {
    if commits != [] {
      var init := commits[..|commits| - 1];
      SelectedMembers(repo, init, target, c);
      assert commits == init + [commits[|commits| - 1]];
    }
  }

  /** The selection keeps the input order: it is a subsequence of the input. */
  lemma {:induction false} SelectedIsSubsequence(repo: Repo, commits: seq<string>, target: string)
    ensures IsSubsequence(Selected(repo, commits, target), commits)
    decreases |commits|
  {
    if commits != [] {
      var init := commits[..|commits| - 1];
      var c := commits[|commits| - 1];
      var s := Selected(repo, init, target);
      SelectedIsSubsequence(repo, init, target);
      if HasFile(repo, c, target) {
        assert (s + [c])[..|s|] == s;
      } else {
        assert Selected(repo, commits, target) == s;
        SubsequenceOfLonger(s, init, c);
      }
    }
  }

  lemma {:induction false} SubsequenceOfLonger(a: seq<string>, b: seq<string>, x: string)
    requires IsSubsequence(a, b)
    ensures IsSubsequence(a, b + [x])
  {
    if a != [] {
      assert (b + [x])[..|b|] == b;
    }
  }

  /** Distinct commits (as `git rev-list` prints them) give a distinct result:
      each commit is listed at most once because its scan stops at the first hit. */
  lemma {:induction false} SelectedDistinct(repo: Repo, commits: seq<string>, target: string)
    requires Distinct(commits)
    ensures Distinct(Selected(repo, commits, target))
    decreases |commits|
  {
    if commits != [] {
      var init := commits[..|commits| - 1];
      var c := commits[|commits| - 1];
      SelectedDistinct(repo, init, target);
      SelectedMembers(repo, init, target, c);
    }
  }

  /** A repository whose listings only hold lines that unpack never makes the
      filter fail once every commit has a listing. */
  lemma {:induction false} FilterSucceeds(repo: Repo, commits: seq<string>, target: string)
    requires forall c :: c in commits ==> c in repo.lsTree
    requires forall c, k :: c in commits && c in repo.lsTree && 0 <= k < |repo.lsTree[c]| ==>
               ParseLine(repo.lsTree[c][k]).Ok?
    ensures Filter(repo, commits, target).Ok?
    decreases |commits|
  {
    if commits != [] {
      var init := commits[..|commits| - 1];
      var c := commits[|commits| - 1];
      FilterSucceeds(repo, init, target);
      var lines := repo.lsTree[c];
      forall k | 0 <= k < |lines|
        ensures ParseAll(lines)[k].Ok?
      {
        ParseAllAt(lines, k);
      }
      ScanFromErr(ParseAll(lines), 0, target);
    }
  }

  /** The scenario of the module's unit test, for every choice of names:
      three commits whose listings hold (hit, any), (miss, miss) and
      (hit, any) give the first and the third commit. */
  lemma TestScenario(c1: string, c2: string, c3: string, hit: Entry, other: Entry,
                     miss1: Entry, miss2: Entry, last: Entry, target: string)
    requires c1 != c2 && c2 != c3 && c1 != c3
    requires WellFormed(hit) && WellFormed(other) && WellFormed(miss1) && WellFormed(miss2) && WellFormed(last)
    requires hit.hash == target && miss1.hash != target && miss2.hash != target
    ensures var repo := Repo(Some([c1, c2, c3]),
                             map[c1 := [FormatLine(hit), FormatLine(other)],
                                 c2 := [FormatLine(miss1), FormatLine(miss2)],
                                 c3 := [FormatLine(hit), FormatLine(last)]]);
            CommitsWithFile(repo, target) == Ok([c1, c3])
  {
    var repo := Repo(Some([c1, c2, c3]),
                     map[c1 := [FormatLine(hit), FormatLine(other)],
                         c2 := [FormatLine(miss1), FormatLine(miss2)],
                         c3 := [FormatLine(hit), FormatLine(last)]]);
    ScenarioScans(hit, other, miss1, miss2, last, target);
    assert Scan(repo.lsTree[c1], target) == Ok(true);
    assert Scan(repo.lsTree[c2], target) == Ok(false);
    assert Scan(repo.lsTree[c3], target) == Ok(true);
    FilterSnoc(repo, [], c1, target);
    assert [] + [c1] == [c1];
    FilterSnoc(repo, [c1], c2, target);
    assert [c1] + [c2] == [c1, c2];
    FilterSnoc(repo, [c1, c2], c3, target);
    assert [c1, c2] + [c3] == [c1, c2, c3];
    assert [c1] + [c3] == [c1, c3];
  }

  lemma ScenarioScans(hit: Entry, other: Entry, miss1: Entry, miss2: Entry, last: Entry, target: string)
    requires WellFormed(hit) && WellFormed(miss1) && WellFormed(miss2)
    requires hit.hash == target && miss1.hash != target && miss2.hash != target
    ensures Scan([FormatLine(hit), FormatLine(other)], target) == Ok(true)
    ensures Scan([FormatLine(miss1), FormatLine(miss2)], target) == Ok(false)
    ensures Scan([FormatLine(hit), FormatLine(last)], target) == Ok(true)
  {
    ParseFormat(hit);
    ParseFormat(miss1);
    ParseFormat(miss2);
    ScanFirst(FormatLine(hit), FormatLine(other), target);
    ScanFirst(FormatLine(hit), FormatLine(last), target);
    ScanFirst(FormatLine(miss1), FormatLine(miss2), target);
  }

  /** A two-line listing: the first line decides unless it misses. */
  lemma ScanFirst(l1: string, l2: string, target: string)
    ensures Hit(ParseLine(l1), target) ==> Scan([l1, l2], target) == Ok(true)
    ensures Miss(ParseLine(l1), target) && Miss(ParseLine(l2), target) ==> Scan([l1, l2], target) == Ok(false)
  {
    var rs := ParseAll([l1, l2]);
    ParseAllAt([l1, l2], 0);
    ParseAllAt([l1, l2], 1);
    assert ScanFrom(rs, 2, target) == Ok(false);
    if Miss(rs[1], target) {
      assert ScanFrom(rs, 1, target) == Ok(false);
    }
  }

  /** One more commit: the filter so far, then that commit's scan. */
  lemma FilterSnoc(repo: Repo, done: seq<string>, c: string, target: string)
    requires Filter(repo, done, target).Ok? && c in repo.lsTree && Scan(repo.lsTree[c], target).Ok?
    ensures Filter(repo, done + [c], target)
            == Ok(if Scan(repo.lsTree[c], target).value then Filter(repo, done, target).value + [c]
                  else Filter(repo, done, target).value)
  {
    var cs := done + [c];
    assert cs[..|cs| - 1] == done && cs[|cs| - 1] == c;
  }
}
