/** Small setup.ini files read by `parse_setup_ini`
    (find-cyg-roots.py:48-66), with the package names left open. */
module SetupIniExample {
  import opened Outcome
  import opened Text
  import opened SetupIni
  import opened SetupIniProperties

  predicate IsName(s: string) {
    |s| > 0 && NoSpace(s)
  }

  predicate IsCategoryList(cats: seq<string>) {
    forall k :: 0 <= k < |cats| ==> |cats[k]| > 0 && AllWordChars(cats[k])
  }

  /** Package p is in the Base category and requires d; package q is in
      categories without Base and has no `requires:` line. */
  function ExampleLines(p: string, q: string, d: string, cats: seq<string>, others: seq<string>): seq<string> {
    ["@ " + p, "category: " + Unwords(cats), "requires: " + d, "@ " + q, "category: " + Unwords(others)]
  }

  lemma PackageLine(name: string)
    requires IsName(name)
    ensures Classify("@ " + name) == Package(name)
  {
    PackageLineMatches(" ", name, "");
    assert "@ " + name == "@" + " " + name + "";
  }

  lemma ClassifiedAs(lines: seq<string>, kinds: seq<LineKind>)
    requires |lines| == |kinds|
    requires forall k :: 0 <= k < |lines| ==> Classify(lines[k]) == kinds[k]
    ensures ClassifyAll(lines) == kinds
  {
  }

  lemma ExampleKinds(p: string, q: string, d: string, cats: seq<string>, others: seq<string>)
    requires IsName(p) && IsName(q) && IsName(d)
    requires IsCategoryList(cats) && "Base" in cats
    requires IsCategoryList(others) && "Base" !in others
    ensures ClassifyAll(ExampleLines(p, q, d, cats, others)) ==
              [Package(p), BaseCategory, Requires([d]), Package(q), Other]
  {
    var lines := ExampleLines(p, q, d, cats, others);
    var kinds := [Package(p), BaseCategory, Requires([d]), Package(q), Other];
    forall k | 0 <= k < 5 ensures Classify(lines[k]) == kinds[k] {
      if k == 0 {
        PackageLine(p);
      } else if k == 1 {
        ClassifyCategoryLine(cats);
      } else if k == 2 {
        ClassifyRequiresLine([d]);
        assert Unwords([d]) == d;
      } else if k == 3 {
        PackageLine(q);
      } else {
        ClassifyCategoryLine(others);
      }
    }
    ClassifiedAs(lines, kinds);
  }

  /** `base` lists p, p's entry is its requirement, and q, which has
      neither Base nor a `requires:` line, gets no entry. */
  lemma ExampleParse(p: string, q: string, d: string, cats: seq<string>, others: seq<string>)
    requires IsName(p) && IsName(q) && IsName(d) && p != BasePackage
    requires IsCategoryList(cats) && "Base" in cats
    requires IsCategoryList(others) && "Base" !in others
    ensures ParseSetupIni(ExampleLines(p, q, d, cats, others)) == Ok(map[BasePackage := [p], p := [d]])
  {
    ExampleKinds(p, q, d, cats, others);
    var kinds := [Package(p), BaseCategory, Requires([d]), Package(q), Other];
    assert Fold(kinds, 1) == Ok(IniState(map[], Some(p)));
    assert Lookup(map[], BasePackage) + [p] == [p];
    assert Fold(kinds, 2) == Ok(IniState(map[BasePackage := [p]], Some(p)));
    assert Fold(kinds, 3) == Ok(IniState(map[BasePackage := [p], p := [d]], Some(p)));
    assert Fold(kinds, 4) == Ok(IniState(map[BasePackage := [p], p := [d]], Some(q)));
    assert Fold(kinds, 5) == Ok(IniState(map[BasePackage := [p], p := [d]], Some(q)));
  }

  /** A `requires:` line before any `@` line is the UnboundLocalError
      case, whatever follows it. */
  lemma ExampleOrphan(d: string, rest: seq<string>)
    requires IsName(d)
    ensures ParseSetupIni(["requires: " + d] + rest) == Err(NoCurrentPackage(0))
  {
    var lines := ["requires: " + d] + rest;
    ClassifyRequiresLine([d]);
    assert Unwords([d]) == d;
    assert ClassifyAll(lines)[0] == Requires([d]);
    assert Orphan(ClassifyAll(lines), 0);
    ParseSetupIniMeaning(lines);
  }
}
