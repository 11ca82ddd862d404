/** The command `find-cyg-roots` (find-cyg-roots.py:79-97): restrict the
    dependency graph read from setup.ini to the installed packages and the
    pseudo-package `base`, find its roots, sort them and drop `base`. What
    is left are the installed packages that nothing else installed needs
    and that are not pulled in by the Base category. */
module FindCygRoots {
  import opened Outcome
  import opened Graphs
  import opened Components
  import opened Roots
  import opened RootProperties
  import opened Lists
  import opened SetupIni

  datatype CliError =
    | BadIni(parse: ParseError)
      /** An installed package requires one that is not installed: the
          KeyError `find_roots` raises. */
    | MissingPackage(from: string, missing: string)
      /** `base` is not among the roots, so `roots.remove('base')` raises
          ValueError. */
    | BaseNotRoot

  /** `{p: all_pkgs_graph[p] for p in inst}` after `inst.append('base')`
      (find-cyg-roots.py:92-94): each installed package, and `base`, with
      the successors setup.ini gives it, none when it has no entry. */
  function InstalledGraph(g: PackageGraph, inst: seq<string>): (h: Graph<string>)
    ensures forall p :: p in h <==> p in inst || p == BasePackage
    ensures forall p :: p in h ==> h[p] == Lookup(g, p)
  {
    map p | p in inst + [BasePackage] :: Lookup(g, p)
  }

  /** The roots `main` prints, when it prints: every installed package is
      needed by `base` or by one of them, none of them is needed by `base`
      or by another of them, and in particular no member of the Base
      category is among them (find-cyg-roots.py:45-47, 91-97 with
      roots.py:3-6). */
  lemma PrintedRootsMeaning(g: PackageGraph, inst: seq<string>, sccs: seq<seq<string>>, out: seq<string>)
    requires ValidSccs(InstalledGraph(g, inst), sccs)
    requires BasePackage in RootReps(InstalledGraph(g, inst), sccs)
    requires forall p :: p in out <==> p in RootReps(InstalledGraph(g, inst), sccs) && p != BasePackage
    ensures forall p :: p in out ==> p in inst
    ensures forall p :: p in inst ==>
              Reaches(InstalledGraph(g, inst), BasePackage, p) ||
              exists q :: q in out && Reaches(InstalledGraph(g, inst), q, p)
    ensures forall p, q :: p in out && q in out && p != q ==> !Reaches(InstalledGraph(g, inst), q, p)
    ensures forall p :: p in out ==> !Reaches(InstalledGraph(g, inst), BasePackage, p)
    ensures forall p :: p in Lookup(g, BasePackage) ==> p !in out
  {
    var h := InstalledGraph(g, inst);
    RootRepsShape(h, sccs);
    RootsReachEverything(h, sccs);
    RootsMinimal(h, sccs);
    forall p | p in Lookup(g, BasePackage) ensures p !in out {
      assert h[BasePackage] == Lookup(g, BasePackage);
      ReachesEdge(h, BasePackage, p);
    }
  }

  /** Lines 91-95 of `main`, given the strongly connected components of the
      restricted graph in the order `tarjan` lists them. */
  method FindCygRoots(g: PackageGraph, inst: seq<string>, sccs: seq<seq<string>>) returns (r: Result<seq<string>, CliError>)
    requires ValidSccs(InstalledGraph(g, inst), sccs)
    ensures r.Err? <==> !Closed(InstalledGraph(g, inst)) || BasePackage !in RootReps(InstalledGraph(g, inst), sccs)
    ensures r.Err? && r.error.MissingPackage? ==>
              r.error.from in inst + [BasePackage] && r.error.missing in Lookup(g, r.error.from) &&
              r.error.missing !in inst && r.error.missing != BasePackage
    ensures r.Err? ==> !r.error.BadIni?
    ensures r.Err? ==> (r.error.MissingPackage? <==> !Closed(InstalledGraph(g, inst)))
    ensures r.Ok? ==> Sorted(r.value) && NoDuplicates(r.value)
    ensures r.Ok? ==> forall p :: p in r.value <==> p in RootReps(InstalledGraph(g, inst), sccs) && p != BasePackage
    ensures r.Ok? ==> r.value == Sort(r.value)
  {
    var h := InstalledGraph(g, inst);
    var found := FindRoots(h, sccs);
    match found {
      case Err(e) =>
        return Err(MissingPackage(e.from, e.missing));
      case Ok(reps) =>
        RootRepsShape(h, sccs);
        var sorted := Sort(reps);
        PermutationKeepsDistinct(reps, sorted);
        assert forall p :: p in sorted <==> p in reps by {
          forall p ensures p in sorted <==> p in reps {
            assert p in sorted <==> p in multiset(sorted);
            assert p in reps <==> p in multiset(reps);
          }
        }
        match RemoveFirst(sorted, BasePackage) {
          case None =>
            return Err(BaseNotRoot);
          case Some(rest) =>
            RemoveFirstDistinct(sorted, BasePackage);
            SortedUnique(rest, Sort(rest));
            return Ok(rest);
        }
    }
  }

  /** All of `main` from the parsed setup.ini on (find-cyg-roots.py:89-95):
      `sccs` stands for what `tarjan` returns on the restricted graph. */
  method FindCygRootsFromIni(lines: seq<string>, inst: seq<string>, sccs: seq<seq<string>>) returns (r: Result<seq<string>, CliError>)
    requires ParseSetupIni(lines).Ok? ==> ValidSccs(InstalledGraph(ParseSetupIni(lines).value, inst), sccs)
    ensures r.Err? && r.error.BadIni? <==> ParseSetupIni(lines).Err?
    ensures r.Err? && r.error.BadIni? ==> r.error.parse == ParseSetupIni(lines).error
    ensures r.Ok? ==> ParseSetupIni(lines).Ok? && Sorted(r.value) && NoDuplicates(r.value)
    ensures ParseSetupIni(lines).Ok? ==>
              var h := InstalledGraph(ParseSetupIni(lines).value, inst);
              && (r.Err? <==> !Closed(h) || BasePackage !in RootReps(h, sccs))
              && (r.Err? ==> (r.error.MissingPackage? <==> !Closed(h)))
              && (r.Ok? ==> forall p :: p in r.value <==> p in RootReps(h, sccs) && p != BasePackage)
    ensures r.Err? && r.error.MissingPackage? ==>
              r.error.from in inst + [BasePackage] &&
              r.error.missing in Lookup(ParseSetupIni(lines).value, r.error.from) &&
              r.error.missing !in inst && r.error.missing != BasePackage
    ensures r.Ok? ==> forall p :: p in r.value ==> p in inst && p !in Lookup(ParseSetupIni(lines).value, BasePackage)
  {
    match ParseSetupIni(lines) {
      case Err(e) =>
        return Err(BadIni(e));
      case Ok(g) =>
        r := FindCygRoots(g, inst, sccs);
        if r.Ok? {
          PrintedRootsMeaning(g, inst, sccs, r.value);
        }
    }
  }
}
