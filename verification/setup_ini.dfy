/** `parse_setup_ini` (find-cyg-roots.py:45-66): a left fold over the lines
    of setup.ini that records, for every package, the names on its last
    `requires:` line, and makes up a package `base` whose successors are the
    packages whose `category:` line names the Base category. Lines are
    given without their terminator. */
module SetupIni {
  import opened Outcome
  import opened Text

  type PackageGraph = map<string, seq<string>>

  /** The made-up package that requires every Base package. */
  const BasePackage: string := "base"

  /** Reading `name` before any `@` line has bound it raises
      UnboundLocalError; `line` is the index of the offending line. */
  datatype ParseError = NoCurrentPackage(line: nat)

  /** The fold's state: the graph so far and the package named by the
      last `@` line, if any. */
  datatype IniState = IniState(graph: PackageGraph, current: Option<string>)

  /** Reading a `defaultdict(list)`: a missing package has no successors. */
  function Lookup(g: PackageGraph, p: string): seq<string> {
    if p in g then g[p] else []
  }

  /** `^@\s+(\S+)` (find-cyg-roots.py:53-56): the package name after `@`
      and at least one whitespace character. */
  function MatchPackage(line: string): (r: Option<string>)
    ensures r.Some? ==> |line| > 1 && line[0] == '@' && IsSpace(line[1])
    ensures r.Some? ==>
              var n := SpaceRun(line[1..]);
              && 1 + n + |r.value| <= |line|
              && line[1 + n..1 + n + |r.value|] == r.value
              && |r.value| > 0 && NoSpace(r.value)
              && (1 + n + |r.value| == |line| || IsSpace(line[1 + n + |r.value|]))
  {
    if |line| < 2 || line[0] != '@' || !IsSpace(line[1]) then None
    else
      var n := SpaceRun(line[1..]);
      if 1 + n == |line| then None
      else
        var rest := line[1 + n..];
        assert rest == line[1..][n..];
        Some(rest[..TokenRun(rest)])
  }

  /** `^category:.*\bBase\b` (find-cyg-roots.py:59). */
  predicate IsBaseCategory(line: string) {
    StartsWith(line, "category:") && HasWordFrom(line, |"category:"|, "Base")
  }

  /** `^requires:` (find-cyg-roots.py:63); the pattern's `\s*(.*)$` always
      matches the rest of a line without terminator. */
  predicate IsRequires(line: string) {
    StartsWith(line, "requires:")
  }

  /** What a line of setup.ini says, matched in the order of the source. */
  datatype LineKind = Package(name: string) | BaseCategory | Requires(deps: seq<string>) | Other

  function Classify(line: string): LineKind {
    match MatchPackage(line)
    case Some(name) => Package(name)
    case None =>
      if IsBaseCategory(line) then BaseCategory
      else if IsRequires(line) then Requires(Words(line[|"requires:"|..]))
      else Other
  }

  /** Lines that read the current package name. */
  predicate NeedsOwner(kind: LineKind) {
    kind.BaseCategory? || kind.Requires?
  }

  /** One iteration of the loop at find-cyg-roots.py:52-65, for the line at
      index `at`, once its kind is known. */
  function Step(st: IniState, kind: LineKind, at: nat): (r: Result<IniState, ParseError>)
    ensures r.Err? <==> NeedsOwner(kind) && st.current.None?
    ensures r.Err? ==> r.error.line == at
    ensures kind.Package? ==> r == Ok(IniState(st.graph, Some(kind.name)))
    ensures kind.Other? ==> r == Ok(st)
    ensures r.Ok? && !kind.Package? ==> r.value.current == st.current
    ensures r.Ok? && kind.BaseCategory? ==>
              && r.value.graph.Keys == st.graph.Keys + {BasePackage}
              && forall p :: p in st.graph && p != BasePackage ==> r.value.graph[p] == st.graph[p]
    ensures r.Ok? && kind.Requires? ==>
              && r.value.graph.Keys == st.graph.Keys + {st.current.value}
              && forall p :: p in st.graph && p != st.current.value ==> r.value.graph[p] == st.graph[p]
    ensures r.Ok? && kind.BaseCategory? ==>
              Lookup(r.value.graph, BasePackage) == Lookup(st.graph, BasePackage) + [st.current.value]
    ensures r.Ok? && kind.Requires? ==> Lookup(r.value.graph, st.current.value) == kind.deps
  {
    match kind
    case Package(name) => Ok(st.(current := Some(name)))
    case BaseCategory =>
      if st.current.None? then Err(NoCurrentPackage(at))
      else Ok(st.(graph := st.graph[BasePackage := Lookup(st.graph, BasePackage) + [st.current.value]]))
    case Requires(deps) =>
      if st.current.None? then Err(NoCurrentPackage(at))
      else Ok(st.(graph := st.graph[st.current.value := deps]))
    case Other => Ok(st)
  }

  /** The fold over the first n lines, given the kind of every line. */
  function Fold(kinds: seq<LineKind>, n: nat): Result<IniState, ParseError>
    requires n <= |kinds|
  {
    if n == 0 then Ok(IniState(map[], None))
    else
      match Fold(kinds, n - 1)
      case Err(e) => Err(e)
      case Ok(st) => Step(st, kinds[n - 1], n - 1)
  }

  function ClassifyAll(lines: seq<string>): seq<LineKind> {
    seq(|lines|, k requires 0 <= k < |lines| => Classify(lines[k]))
  }

  /** `parse_setup_ini` over the lines of the file. */
  function ParseSetupIni(lines: seq<string>): Result<PackageGraph, ParseError> {
    match Fold(ClassifyAll(lines), |lines|)
    case Err(e) => Err(e)
    case Ok(st) => Ok(st.graph)
  }
}
