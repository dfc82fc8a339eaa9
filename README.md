# Git dependency visualizer, modelled in Dafny

`dependency_visualizer.py` takes a repository and the hash of a blob. It
runs `git rev-list --all` and keeps the commits whose `git ls-tree -r`
listing contains an entry with that hash. It then builds a containment graph
from those commits' listings: a `defaultdict(set)` from each directory key
(`.` for the top level) to the names directly inside it. Finally it writes
the graph as Graphviz DOT text and hands that text to Graphviz.

The model covers the core of that pipeline:

- **`PyStr`**: the Python string operations the program relies on.
  - `str.strip()` and `str.split(None, 3)`. These use Python's `isspace`
    set, including the Unicode spaces.
  - `str.split('/')` and `'/'.join(...)`.
- **`LsTree`**: how one listing line is parsed, with
  `mode, type_, hash_, path = obj.strip().split(None, 3)`. The unpack fails
  with a `ValueError` when there are fewer than four fields.
- **`CommitFilter`**: `get_commits_with_file`.
  - git is a value, `Repo`: the rev-list output and each commit's ls-tree
    output, already split into lines.
  - A failing git call is a missing value or key.
  - The method `GetCommitsWithFile` is proved equal to the function
    `CommitsWithFile`.
  - When that function succeeds, its value is the declarative selection
    `Selected`.
- **`Paths`**: the edges `build_dependency_graph` adds for one path: each
  ancestor directory to the next, then the containing directory (or `.`) to
  the path.
- **`DependencyGraph`**: the `defaultdict(set)` as a class `Graph`.
  - Its fields are the key order (Python dicts keep insertion order) and the
    key-to-set map.
  - A ghost history of every `graph[parent].add(child)` call ties the two
    fields together.
  - `BuildDependencyGraph` is proved against the function `BuildEdges`.
- **`Dot`**: `generate_dot`.
  - The order in which a Python `set` is iterated is left open. The method
    records it in a ghost result, and every property is proved for every
    such order.
- **`Pipeline`**: `main` without argument parsing, printing and Graphviz.
  The graph is built only when some commit holds the file.

The code and a natural reading of the program's intent differ in two
places. The model follows the code in both:

- **Child order in the DOT text.** Children are emitted in `set` iteration
  order, not in the order they were inserted. The unit test expects one
  particular order (`Dot.TestDependsOnSetOrder`).
- **Malformed listing lines.** A line that does not unpack raises a
  `ValueError`, which the code does not catch. The model reports it as an
  `Unpack` error that ends the run, like a failing git call.

## Model

| member | source | states |
|---|---|---|
| PyStr.SplitWs | dependency_visualizer.py:27 | `split(None, n)` never yields more than `n + 1` fields |
| PyStr.SplitWsLength | dependency_visualizer.py:27 | a split limited to `n` cuts has `min(n + 1, number of words)` fields |
| PyStr.SplitWsAgreesWithWords | dependency_visualizer.py:27 | each of the first `n` fields of a limited split is the corresponding word of the unlimited split |
| PyStr.SplitWsLastIsSuffix | dependency_visualizer.py:27 | when all cuts are used, the last field is a suffix of the string and starts with a non-space |
| PyStr.WordsAreWords | dependency_visualizer.py:27 | every field of `split()` is a non-empty run of non-space characters |
| PyStr.WordsOfStrip | dependency_visualizer.py:27 | `strip()` does not change the fields of `split()` |
| PyStr.StripEnds | dependency_visualizer.py:27 | a stripped string is empty or ends with a non-space |
| PyStr.StripSurrounded | dependency_visualizer.py:27 | `strip()` removes exactly the leading and trailing whitespace around a core that starts and ends with a non-space |
| PyStr.SplitFour | dependency_visualizer.py:27 | three space-free words, whitespace runs and a last field split into exactly those four fields |
| PyStr.Split | dependency_visualizer.py:44 | `split('/')` gives one more part than there are slashes, and no part holds a slash |
| PyStr.JoinSplit | dependency_visualizer.py:44-47 | joining the parts of a split with the separator gives back the string |
| PyStr.SplitJoin | dependency_visualizer.py:44-47 | splitting a join of separator-free parts gives back the parts |
| PyStr.JoinSnoc | dependency_visualizer.py:46-47 | joining one more part appends the separator and that part |
| LsTree.ParseLineFails | dependency_visualizer.py:27 | the unpack fails exactly when the line has fewer than four words, and the error reports how many fields there were |
| LsTree.ParseLineFields | dependency_visualizer.py:27 | on success the line has at least four words, and mode, type and hash are its first three |
| LsTree.ParsedEntryWellFormed | dependency_visualizer.py:27 | every parsed entry has three non-empty space-free fields and a non-empty path that starts and ends with a non-space |
| LsTree.ParseLayout | dependency_visualizer.py:27 | any line laid out as the four fields with whitespace around and between them parses back to exactly those fields |
| LsTree.ParseFormat | dependency_visualizer.py:27 | the line git prints for a well-formed entry parses back to that entry |
| LsTree.ParseAllAt | dependency_visualizer.py:26-27 | the parsed listing holds, at each index, the parse of that line |
| LsTree.ParseAllPrefix | dependency_visualizer.py:26-27 | parsing a prefix of the lines gives the same prefix of parses |
| CommitFilter.GetCommitsWithFile | dependency_visualizer.py:17-34 | the loop returns exactly `CommitsWithFile`: a rev-list failure, the first ls-tree failure or unpack error, or the matching commits in rev-list order |
| CommitFilter.ScanFromCases | dependency_visualizer.py:26-30 | from line `j` the scan answers true iff some line unpacks with the hash and every earlier line unpacks without it; false iff every line unpacks without it; otherwise it fails at the first line that does not unpack |
| CommitFilter.ScanAnswers | dependency_visualizer.py:26-30 | when a listing scan succeeds, it answers true exactly when some line of the listing has the hash |
| CommitFilter.ScanFails | dependency_visualizer.py:26-27 | a failed scan names a line that does not unpack, with that line's error, and every earlier line unpacks with another hash |
| CommitFilter.ScanStopsAtHit | dependency_visualizer.py:28-30 | once a line matches, the lines after it are never looked at (`break`) |
| CommitFilter.FilterErrorPersists | dependency_visualizer.py:19-34 | a failure on some commit is the result of the whole call, whatever follows |
| CommitFilter.FilterIsSelected | dependency_visualizer.py:22-31 | a successful filter returns exactly `Selected`: the commits whose listing has the hash, in order |
| CommitFilter.SelectedMembers | dependency_visualizer.py:22-31 | a commit is returned iff it is listed by rev-list and its listing has an entry with the hash |
| CommitFilter.SelectedIsSubsequence | dependency_visualizer.py:22-31 | the result keeps the rev-list order |
| CommitFilter.SelectedDistinct | dependency_visualizer.py:22-31 | distinct commits give a result with no commit twice, even when the hash occurs at several paths |
| CommitFilter.FilterSucceeds | dependency_visualizer.py:19-31 | when every commit has a listing and every line unpacks, the filter succeeds |
| CommitFilter.TestScenario | test_dependency_visualizer.py:9-19 | for the test's three listings, with any well-formed entries of the same shape, the result is the first and third commit |
| Paths.PathEdges | dependency_visualizer.py:44-53 | a path with `s` slashes adds `s + 1` edges |
| Paths.PathEdgesAt | dependency_visualizer.py:45-53 | edge `k` goes from the first `k` segments (or `.`) to the first `k + 1`, joined by `/` |
| Paths.PathEdgesChain | dependency_visualizer.py:45-53 | the edges form a chain from `.` to the path, each starting where the previous one ended |
| Paths.PathEdgesExtend | dependency_visualizer.py:46-47 | past the first edge, each child is its parent, a slash and one more segment |
| Paths.TopLevelPath | dependency_visualizer.py:49-53 | a path without a slash adds only the edge from `.` to it |
| Paths.PathEdgesRank | dependency_visualizer.py:44-53 | every edge goes exactly one level deeper, when the path does not start with a `.` segment |
| Paths.RootSelfLoop | dependency_visualizer.py:45-47 | a path `./x` adds an edge from `.` to itself |
| DependencyGraph.Graph.constructor | dependency_visualizer.py:38 | a new `defaultdict(set)` has no keys and no edges |
| DependencyGraph.Graph.Add | dependency_visualizer.py:48 | `graph[parent].add(child)`: a new key goes at the end of the key order with `{child}`; a known key's set gains `child`; the invariant is kept |
| DependencyGraph.AddPathEdges | dependency_visualizer.py:44-53 | the loop over a path's directories adds exactly `PathEdges(path)` |
| DependencyGraph.BuildDependencyGraph | dependency_visualizer.py:36-54 | returns the first ls-tree failure or unpack error, or a fresh valid graph whose edges are `BuildEdges` (each commit's listing paths in order) |
| DependencyGraph.ListingPathsAt | dependency_visualizer.py:42-43 | a listing that unpacks gives one path per line, in line order |
| DependencyGraph.ParentOrderMembers | dependency_visualizer.py:38-53 | the keys are exactly the parents of the edges added |
| DependencyGraph.ParentOrderDistinct | dependency_visualizer.py:38-53 | no key appears twice in the key order |
| DependencyGraph.KeysMatchChildren | dependency_visualizer.py:38-53 | the key order lists exactly the dict's keys, and no key has an empty set |
| DependencyGraph.ChildMapMembers | dependency_visualizer.py:38-53 | `c in graph[p]` iff the edge `p -> c` was added |
| DependencyGraph.ParentOrderGrows | dependency_visualizer.py:38-53 | later additions only append keys: the old key order is a prefix of the new one |
| DependencyGraph.ChildMapGrows | dependency_visualizer.py:38-53 | later additions never remove a child |
| DependencyGraph.AddAgainIsNoOp | dependency_visualizer.py:38-53 | adding edges already present changes neither the key order nor any set |
| DependencyGraph.ChildMapOfSameEdges | dependency_visualizer.py:38-53 | the sets depend only on which edges were added, not on their order or repetition |
| DependencyGraph.PathsEdgesMembers | dependency_visualizer.py:42-53 | the edges of a listing are those of its paths |
| DependencyGraph.BuildEdgesListed | dependency_visualizer.py:39-43 | a successful build means every commit had a listing and every line unpacked |
| DependencyGraph.BuildEdgesMembers | dependency_visualizer.py:39-53 | an edge is in the built graph iff it belongs to a path of some commit's listing |
| DependencyGraph.CommitOrderIrrelevant | dependency_visualizer.py:39-53 | two commit lists with the same members build the same dict contents |
| DependencyGraph.WalkRank | dependency_visualizer.py:44-53 | along a walk in a ranked graph the rank grows by one per step, so no walk returns to its start: no cycles |
| DependencyGraph.PathsRanked | dependency_visualizer.py:44-53 | paths that do not start with a `.` segment give ranked edges |
| DependencyGraph.BuiltRanked | dependency_visualizer.py:39-53 | the edges built from listings whose paths never start with a `.` segment are ranked, so (by `WalkRank`) the graph has no cycles |
| Dot.GenerateDot | dependency_visualizer.py:56-63 | the text is the header, one line per key and child (keys in dict order, each set in some order that lists it once per element), then `}`; an empty dict gives `digraph dependencies {\n}` |
| Dot.EmittedMembers | dependency_visualizer.py:59-61 | an edge line is written iff its child is among those visited under its parent |
| Dot.EmittedDistinct | dependency_visualizer.py:59-61 | distinct keys and duplicate-free orders write no line twice |
| Dot.DotLinesAreEdges | dependency_visualizer.py:56-63 | for a built graph, the lines are exactly the edges added, none twice, as many as there are distinct edges |
| Dot.ParentsInKeyOrder | dependency_visualizer.py:59-61 | lines are grouped by parent, and the groups follow the key order |
| Dot.LineInjective | dependency_visualizer.py:61 | when parent names hold no quote, a line determines its parent and child |
| Dot.LineAmbiguous | dependency_visualizer.py:61 | names are not escaped: `a` -> `b" -> "c` and `a" -> "b` -> `c` write the same line |
| Dot.TestGenerateDot | test_dependency_visualizer.py:21-35 | the test's dict, with each set iterated in sorted order, gives exactly the expected text |
| Dot.TestDependsOnSetOrder | test_dependency_visualizer.py:21-35 | iterating `{'src', 'README.md'}` with `src` first, which a set allows, gives a different text |
| Pipeline.Run | dependency_visualizer.py:86-94 | `main` stops with no graph exactly when the search finds no commit; otherwise it reports the first failure or draws `DotText` of the built graph |
| Pipeline.NoCommitsMeansNoFile | dependency_visualizer.py:88-91 | `main` stops early exactly when rev-list and every listing scan succeed and no commit has the hash |
| Pipeline.MatchedFileDrawn | dependency_visualizer.py:88-93 | every entry with the hash, in every commit found, is a node of the graph: some edge ends at its path |

## Left out

- `parse_arguments` (dependency_visualizer.py:10-15): argument parsing. The repository and the hash are parameters of `Pipeline.Run`.
- `subprocess.check_output`, `.decode()` and `.splitlines()`: git's output arrives already decoded and split into lines.
- UTF-8 decoding errors and the way `splitlines` treats separators are not modelled.
- Printing and exit statuses: the messages of lines 32-34 and 89-91 and the calls to `sys.exit` become the three cases of `Pipeline.Outcome`.
- `visualize_graph` (dependency_visualizer.py:65-84): the temporary file, running Graphviz, opening the image and deleting the file. The model ends with the DOT text handed to it.
- Set iteration order: CPython's string-hash order is not modelled. Every property of `generate_dot` holds for every order, and the test lemmas show which order the unit test assumes.
- Dot.GenerateDot: it takes the dict as its key order and its key-to-set map, rather than the `Graph` object. `generate_dot` only reads the dict, and the unit test passes a plain dict.
- Paths.PathEdgesRank, DependencyGraph.PathsRanked and DependencyGraph.BuiltRanked: acyclicity is proved only for paths whose first segment is not `.`. git never lists such a path, and `Paths.RootSelfLoop` shows the self-loop the code would add for one.
- The parameters of `Pipeline.Run` are the rev-list result and each commit's listing. Invalid repository paths and git's own behaviour are not modelled.
