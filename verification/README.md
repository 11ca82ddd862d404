# roots — a Dafny model

This project models the two pieces of logic in the `roots` repository.

- `find_roots` (roots.py) takes a dependency graph, a map from each vertex to
  its successors. It returns one vertex from each strongly connected
  component that no other component points into. The doc comment says what
  that set means: a minimal set of vertices from which every vertex can be
  reached.
- `find-cyg-roots` (find-cyg-roots.py) reads Cygwin's `setup.ini` into a
  requires-graph. The graph has an extra vertex `base` whose successors are
  the packages of the Base category. The command restricts the graph to the
  installed packages plus `base`, finds its roots, sorts them and drops
  `base`.

The strongly connected components come from the external `tarjan` library,
which is not part of this model. `FindRoots` takes them as a parameter and
requires `ValidSccs`:
- the components are non-empty and pairwise disjoint;
- together they cover exactly the keys of the graph;
- the members of each component reach each other;
- every edge between two components goes from a higher index to a lower one.

Modules, one per file:

| file | module | what it holds |
|---|---|---|
| outcome.dfy | Outcome | `Option` and `Result` |
| graphs.dfy | Graphs | graphs, paths, reachability |
| components.dfy | Components | `ValidSccs`, demotion, `IsRoot` |
| roots.dfy | Roots | the three loops of `find_roots` |
| root_properties.dfy | RootProperties | what the returned list means |
| roots_example.dfy | RootsExample | the graph of `test_roots` |
| text.dfy | Text | Python whitespace, `split()`, `\b` word matches |
| setup_ini.dfy | SetupIni | `parse_setup_ini` as a fold over lines |
| setup_ini_properties.dfy | SetupIniProperties | the fold described line by line |
| setup_ini_example.dfy | SetupIniExample | small setup.ini files |
| lists.dfy | Lists | `sorted` and `list.remove` on strings |
| find_cyg_roots.dfy | FindCygRoots | lines 89-95 of `main` |

On the `test_roots` graph (roots.py:39-42) the code returns [2, 4]. The
edge 8 -> 9 demotes {9}, 5 -> 6 demotes {6, 7, 8}, and 2 -> 5 demotes {5};
nothing outside {1, 2} or {3, 4} points into them. `RootsExample.ExampleRoots`
and `RootsExample.ExampleRootsAnyDecomposition` state this result.

Python exceptions become `Err` values rather than preconditions.
- `find_roots` raises a KeyError on a successor that is not a key.
- `parse_setup_ini` raises an UnboundLocalError on a `category:` or
  `requires:` line before any `@` line.
- `main` raises a ValueError when `base` is not among the roots.

## Model

| member | source | states |
|---|---|---|
| Roots.IndexComponents | roots.py:21-26 | there is one root flag per component, all set; every member of every component gets an index; that index names a component holding the member, with no later component holding it |
| Roots.DemoteSuccessors | roots.py:32-35 | one vertex's edges fail exactly when a successor is not a key, and the error names that edge; otherwise flag j is cleared exactly when it was already clear or j < i and the vertex has an edge into component j |
| Roots.DemoteFromComponent | roots.py:30-35 | one component's pass fails exactly when one of its members has an unknown successor; otherwise the flag of each earlier component that it has an edge into is cleared, and nothing else changes |
| Roots.CollectRoots | roots.py:37 | the output loop returns the first vertex of each flagged component, in component order |
| Roots.FindRoots | roots.py:17-37 | fails exactly when some successor is not a key, naming that edge; otherwise returns the first vertex of each component that no later component points into, and nothing else |
| Roots.RootReps | roots.py:37 | defined as the first vertex of every root component, in component order: the list `find_roots` returns, whose meaning RootProperties states |
| Roots.RootRepsBelow | roots.py:37 | x is in the list exactly when it is the first vertex of a root component among the first n; the list is no longer than n |
| Roots.ClosedIffKnownSuccessors | roots.py:32-33 | every successor is a key exactly when no member of any component has an unknown successor |
| Components.RootIffNoIncoming | roots.py:28-35 | a component stays a root exactly when no vertex outside it has an edge into it |
| Components.IntraEdgeDoesNotDemote | roots.py:33-35 | adding an edge inside a component changes no component's demotion |
| Components.EnteringPathDemotes | roots.py:28-35 | a path that enters a component from outside demotes that component |
| Components.PathDescends | roots.py:28-29 | along any path the component index never increases |
| Components.ComponentOf | roots.py:21-26 | each key lies in exactly one component |
| RootProperties.RootRepsShape | roots.py:37 | the vertices returned are distinct keys of the graph, as many as there are root components |
| RootProperties.RootRepsDistinct | roots.py:37 | no vertex is returned twice |
| RootProperties.RootRepsCount | roots.py:37 | the list is as long as the set of root component indices |
| RootProperties.ComponentReachedFromRoot | roots.py:3-6 | every component is reached in full from some returned vertex |
| RootProperties.RootsReachEverything | roots.py:3-6 | every vertex is reachable from some returned vertex |
| RootProperties.RootReachedOnlyFromItsComponent | roots.py:3-6 | only the members of a root component reach its first vertex |
| RootProperties.RootsMinimal | roots.py:3-6 | no returned vertex reaches another, so none can be dropped |
| RootProperties.DemoteFrom | roots.py:31-35 | defined as one visit of the outer loop to component i: flag j is cleared when j < i and component i has an edge into component j |
| RootProperties.DemoteInOrder | roots.py:30-35 | defined as the outer loop visiting components in a given order instead of 0, 1, 2, ...; keeps one flag per component |
| RootProperties.DemoteInOrderOnlyClears | roots.py:30-35 | after visiting components in any order, a flag is set exactly when it was set before and no visited later component has an edge into it |
| RootProperties.MarkingOrderIrrelevant | roots.py:30-35 | any visiting order that covers every component leaves exactly the root components flagged |
| RootsExample.ExampleSccsValid | roots.py:41 | the listed decomposition of the example graph is valid |
| RootsExample.ExampleFlags | roots.py:28-35 | with that decomposition the components {9}, {8, 7, 6} and {5} are demoted and {2, 1} and {4, 3} are not |
| RootsExample.ExampleRoots | roots.py:41-42 | with that decomposition the result is [2, 4] |
| RootsExample.ExampleRootsAnyDecomposition | roots.py:41-42 | under every valid decomposition the result is one vertex of {1, 2} and one of {3, 4}, in either order, and nothing else |
| RootsExample.ChainNotRoot | roots.py:28-35 | under every valid decomposition, the components of 5 to 9 receive an edge from outside and are not roots |
| RootsExample.CycleIsRoot | roots.py:33-35 | under every valid decomposition, each two-vertex cycle of the example is a root component |
| Text.Words | find-cyg-roots.py:65 | `split()` gives non-empty words without whitespace |
| Text.WordsUnwords | find-cyg-roots.py:65 | splitting words joined by spaces gives back the words |
| Text.WordsKeepCharacters | find-cyg-roots.py:65 | the words, put back together, are the line with its whitespace removed |
| Text.WordsSkipSpaces | find-cyg-roots.py:63 | leading whitespace, which `\s*` consumes, does not change the words |
| Text.HasWordInUnwords | find-cyg-roots.py:59 | over space-separated words of word characters, `\b<w>\b` matches exactly when w is one of the words |
| Text.SpaceRun | find-cyg-roots.py:53 | the greedy whitespace run is all whitespace and stops at a non-space or at the end |
| Text.TokenRun | find-cyg-roots.py:53 | the greedy non-whitespace run has no whitespace and stops at whitespace or at the end |
| SetupIni.Lookup | find-cyg-roots.py:49 | defined as a read of the `defaultdict(list)`: a package without an entry has no successors |
| SetupIni.MatchPackage | find-cyg-roots.py:53-56 | a match means `@`, at least one whitespace character, then a non-empty name without whitespace that ends at whitespace or at the end of the line |
| SetupIni.IsBaseCategory | find-cyg-roots.py:59 | defined as `^category:.*\bBase\b`: the line starts with `category:` and Base occurs after it with no word character on either side |
| SetupIni.IsRequires | find-cyg-roots.py:63 | defined as `^requires:`; the rest of the pattern matches any remainder of a line |
| SetupIni.Classify | find-cyg-roots.py:53-65 | defined as the order of the tests in the loop: the `@` pattern first, then the Base pattern, then `requires:` with the words after it, otherwise nothing |
| SetupIni.Step | find-cyg-roots.py:52-65 | fails at this line exactly when it is a Base or `requires:` line with no current package; an `@` line only sets the current package; a Base line appends the current package to `base`; a `requires:` line replaces the current package's list; other lines change nothing; the key written is `base` on a Base line and the current package on a `requires:` line; no other key is added and no other entry changes |
| SetupIni.Fold | find-cyg-roots.py:52-65 | defined as Step applied to the first n lines in file order, starting from an empty graph and no current package, stopping at the first error |
| SetupIni.ParseSetupIni | find-cyg-roots.py:48-66 | defined as the fold over all lines, returning its graph or its error; ParseSetupIniMeaning states what that result is |
| SetupIniProperties.PackageLineMatches | find-cyg-roots.py:53-57 | every line `@`, whitespace, name, then whitespace or end, sets the current package to that name |
| SetupIniProperties.BaseCategoryIffListed | find-cyg-roots.py:59 | for a `category:` line listing non-empty names made of word characters, separated by single spaces, `\bBase\b` matches exactly when Base is one of the names |
| SetupIniProperties.ClassifyCategoryLine | find-cyg-roots.py:59-61 | for a `category:` line listing non-empty names made of word characters, separated by single spaces, the line is read as a Base line when Base is listed, and ignored otherwise |
| SetupIniProperties.ClassifyRequiresLine | find-cyg-roots.py:63-65 | a `requires:` line written from a list of names is read back as that list |
| SetupIniProperties.LastRequires | find-cyg-roots.py:63-65 | picks the last `requires:` line read while p was current, or reports that there is none |
| SetupIniProperties.ParseCurrent | find-cyg-roots.py:53-57 | the current package is the one named by the last `@` line |
| SetupIniProperties.ParseFails | find-cyg-roots.py:59-65 | parsing fails exactly when a Base or `requires:` line comes before every `@` line, and it reports the first such line |
| SetupIniProperties.ParseGraph | find-cyg-roots.py:49-65 | each package's entry is the words of its last `requires:` line, empty when it has none; `base` also collects, in file order, the packages whose Base line comes after that; the keys are exactly the packages with a `requires:` line, plus `base` once a Base line has been read |
| SetupIniProperties.ParseSetupIniMeaning | find-cyg-roots.py:48-66 | for a whole file: it fails exactly at the first Base or `requires:` line before any `@` line; otherwise every package's entry and the key set are as in ParseGraph |
| SetupIniExample.ExampleParse | find-cyg-roots.py:48-66 | a Base package with one requirement, followed by a non-Base package with none, gives `base` -> [p] and p -> [d] and no entry for the second package |
| SetupIniExample.ExampleOrphan | find-cyg-roots.py:63-65 | a file that opens with a `requires:` line fails at line 0 |
| Lists.LexLeTotal | find-cyg-roots.py:94 | any two strings are comparable |
| Lists.LexLeTrans | find-cyg-roots.py:94 | string order is transitive |
| Lists.LexLeAntisym | find-cyg-roots.py:94 | two strings ordered both ways are equal |
| Lists.Insert | find-cyg-roots.py:94 | inserting adds exactly one copy of the element |
| Lists.InsertKeepsSorted | find-cyg-roots.py:94 | insertion into a sorted list gives a sorted list |
| Lists.Sort | find-cyg-roots.py:94 | the result is sorted and is a permutation of the input |
| Lists.SortedUnique | find-cyg-roots.py:94 | two sorted permutations of one list are equal, so the sorted order is unique |
| Lists.RemoveFirst | find-cyg-roots.py:95 | fails exactly when the element is absent; otherwise it deletes the first occurrence and keeps everything before and after it |
| Lists.RemoveFirstCount | find-cyg-roots.py:95 | removing takes out exactly one copy |
| Lists.RemoveFirstDistinct | find-cyg-roots.py:95 | in a list without repeats, removing x leaves every other element and no x, without repeats, and sorted if the list was sorted |
| Lists.PermutationKeepsDistinct | find-cyg-roots.py:94 | reordering a list without repeats keeps it free of repeats |
| FindCygRoots.InstalledGraph | find-cyg-roots.py:91-94 | the keys are the installed packages plus `base`; each value is the parsed list, empty when the package has none |
| FindCygRoots.FindCygRoots | find-cyg-roots.py:91-95 | fails exactly when an installed package, or `base` through a Base package, requires one that is not installed (a MissingPackage error, naming that edge), or, failing that, when `base` is not a root (BaseNotRoot); otherwise returns the root vertices other than `base`, sorted and without repeats |
| FindCygRoots.PrintedRootsMeaning | find-cyg-roots.py:45-47 | printed packages are installed; every installed package is reached from `base` or from a printed one; no printed package is reached from `base` or from another printed one; no Base package is printed |
| FindCygRoots.FindCygRootsFromIni | find-cyg-roots.py:89-95 | a parse error is reported as such; for a parsed file, it fails exactly when the restricted graph has a successor that is not installed (MissingPackage, naming that edge) or `base` is not a root (BaseNotRoot); otherwise the printed list holds exactly the roots other than `base`, sorted, without repeats, all installed and none in the Base category |

## Left out

- The `tarjan` library is not part of this model. Its output enters `FindRoots` as the parameter `sccs`, constrained by `ValidSccs`.
  - With a dangling successor, the library may list the missing vertex as a component of its own.
  - `find_roots` then raises a KeyError at `g[v]` (roots.py:32) rather than at `scc_ind[w]` (roots.py:33).
  - The model reports both as the same `Err`.
- `get_setup_ini` (find-cyg-roots.py:16-43) is left out: file paths, the `cygpath` subprocess and `os.uname`.
- `get_installed_pkgs` (find-cyg-roots.py:68-77) is left out: it reads a log file. The installed list is a parameter.
- `argparse`, `os.path.exists`, `print`, `sys.exit` and the import guard at roots.py:10-15 are left out. They are command-line and I/O plumbing.
- `test_roots` printing (roots.py:39-42) is left out. Its graph is kept as `RootsExample.ExampleGraph`.
- Reading the file is left out. The parser takes the file as a sequence of lines without their line terminators.
  - On such lines, `$` and `.*` in the `requires:` pattern always match to the end of the line.
  - Universal-newline handling is not modelled.
- `\b` is modelled over ASCII word characters only. Python's `\b` on `str` also treats non-ASCII letters and digits as word characters.
- `\s`, `\S` and `split()` use the characters for which `str.isspace` holds. Both Python features use that same set.
- Python's `defaultdict(list)` inserts a key on every read. The model reads with `Lookup`, which leaves the graph unchanged. Reads in `parse_setup_ini` happen only at `g['base']`, which is written straight after. The comprehension at find-cyg-roots.py:94 builds a new dict, so the keys passed to `find_roots` are the same either way.
- SetupIniProperties.BaseCategoryIffListed, SetupIniProperties.ClassifyCategoryLine: state only lines listing names made of word characters, separated by single spaces. Other lines, such as `category: Base-x`, are still matched by `IsBaseCategory` as Python's `\b` matches them, but no lemma describes them as a list of names.
- Roots.IndexComponents: states "a component holding v, with no later one holding it". That is what the last write of `scc_ind[v] = i` leaves. The contract does not say the index is the only one; that follows from `Disjoint` in `ValidSccs`.
