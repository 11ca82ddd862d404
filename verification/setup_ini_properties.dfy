/** What `parse_setup_ini` computes, described line by line instead of as
    a fold: which package each line belongs to, which `requires:` line of
    a package is the one that counts, and which packages end up under
    `base` (find-cyg-roots.py:48-66). */
module SetupIniProperties {
  import opened Outcome
  import opened Text
  import opened SetupIni

  /** Package lines are exactly `@`, whitespace, a name, then whitespace or
      the end of the line: the converse of MatchPackage's contract. */
  lemma PackageLineMatches(sp: string, name: string, tail: string)
    requires |sp| > 0 && AllSpace(sp)
    requires |name| > 0 && NoSpace(name)
    requires |tail| == 0 || IsSpace(tail[0])
    ensures MatchPackage("@" + sp + name + tail) == Some(name)
  {
    var line := "@" + sp + name + tail;
    assert line[0] == '@' && line[1] == sp[0];
    assert line[1..] == sp + (name + tail);
    SpaceRunOfSpaces(sp, name + tail);
    assert line[1 + |sp|..] == name + tail;
    TokenRunOfToken(name, tail);
    assert (name + tail)[..|name|] == name;
  }

  /** For a `category:` line listing words made of word characters, the
      Base test holds exactly when one of the words is `Base`. */
  lemma BaseCategoryIffListed(cats: seq<string>)
    requires forall k :: 0 <= k < |cats| ==> |cats[k]| > 0 && AllWordChars(cats[k])
    ensures IsBaseCategory("category: " + Unwords(cats)) <==> "Base" in cats
  {
    var p := "category: ";
    assert p + Unwords(cats) == "category:" + (" " + Unwords(cats));
    HasWordInUnwords(cats, "Base");
    HasWordAfter(p, Unwords(cats), "Base");
  }

  /** A line that does not start with `@` is matched against the other
      two patterns only. */
  lemma ClassifyUnmarked(line: string)
    requires |line| > 0 && line[0] != '@'
    ensures Classify(line) ==
              if IsBaseCategory(line) then BaseCategory
              else if IsRequires(line) then Requires(Words(line[|"requires:"|..]))
              else Other
  {
  }

  /** A `requires:` line written from a list of package names is read
      back as exactly that list. */
  lemma ClassifyRequiresLine(deps: seq<string>)
    requires forall k :: 0 <= k < |deps| ==> |deps[k]| > 0 && NoSpace(deps[k])
    ensures Classify("requires: " + Unwords(deps)) == Requires(deps)
  {
    var line := "requires: " + Unwords(deps);
    assert line[0] == 'r';
    ClassifyUnmarked(line);
    assert !StartsWith(line, "category:") by { assert line[0] != 'c'; }
    assert StartsWith(line, "requires:") by { assert line[..9] == "requires:"; }
    assert line[|"requires:"|..] == " " + Unwords(deps);
    WordsSkipSpaces(" ", Unwords(deps));
    WordsUnwords(deps);
  }

  /** A `category:` line is a Base line when Base is among its categories,
      and is ignored otherwise. */
  lemma ClassifyCategoryLine(cats: seq<string>)
    requires forall k :: 0 <= k < |cats| ==> |cats[k]| > 0 && AllWordChars(cats[k])
    ensures Classify("category: " + Unwords(cats)) == if "Base" in cats then BaseCategory else Other
  {
    var line := "category: " + Unwords(cats);
    assert line[0] == 'c';
    ClassifyUnmarked(line);
    assert !StartsWith(line, "requires:") by { assert line[0] != 'r'; }
    BaseCategoryIffListed(cats);
  }

  /** The package named by the last `@` line among the first k lines. */
  function Owner(kinds: seq<LineKind>, k: nat): Option<string>
    requires k <= |kinds|
  {
    if k == 0 then None
    else if kinds[k - 1].Package? then Some(kinds[k - 1].name)
    else Owner(kinds, k - 1)
  }

  /** Line k is a `requires:` line read while p is the current package. */
  predicate RequiresOf(kinds: seq<LineKind>, p: string, k: int) {
    0 <= k < |kinds| && kinds[k].Requires? && Owner(kinds, k) == Some(p)
  }

  /** The last `requires:` line of package p among the first n lines. */
  function LastRequires(kinds: seq<LineKind>, p: string, n: nat): (r: Option<nat>)
    requires n <= |kinds|
    ensures r.Some? ==> r.value < n && RequiresOf(kinds, p, r.value)
    ensures r.Some? ==> forall k :: r.value < k < n ==> !RequiresOf(kinds, p, k)
    ensures r.None? ==> forall k :: 0 <= k < n ==> !RequiresOf(kinds, p, k)
  {
    if n == 0 then None
    else if RequiresOf(kinds, p, n - 1) then Some(n - 1)
    else LastRequires(kinds, p, n - 1)
  }

  /** The packages current at the Base `category:` lines among lines
      from, ..., n - 1, in file order. */
  function BaseMembers(kinds: seq<LineKind>, from: nat, n: nat): seq<string>
    requires n <= |kinds|
  {
    if n <= from then []
    else
      BaseMembers(kinds, from, n - 1) +
      (if kinds[n - 1].BaseCategory? && Owner(kinds, n - 1).Some? then [Owner(kinds, n - 1).value] else [])
  }

  /** What the graph holds for p after the first n lines: the words of its
      last `requires:` line (nothing if it has none), followed, for `base`,
      by the Base packages met after that line. */
  function Expected(kinds: seq<LineKind>, p: string, n: nat): seq<string>
    requires n <= |kinds|
  {
    match LastRequires(kinds, p, n)
    case Some(k) => kinds[k].deps + (if p == BasePackage then BaseMembers(kinds, k + 1, n) else [])
    case None => if p == BasePackage then BaseMembers(kinds, 0, n) else []
  }

  /** Whether p is a key of the graph after the first n lines. */
  predicate ExpectedKey(kinds: seq<LineKind>, p: string, n: nat)
    requires n <= |kinds|
  {
    LastRequires(kinds, p, n).Some? || (p == BasePackage && exists k :: 0 <= k < n && kinds[k].BaseCategory?)
  }

  /** A line that needs the current package comes before any `@` line. */
  predicate Orphan(kinds: seq<LineKind>, k: int) {
    0 <= k < |kinds| && NeedsOwner(kinds[k]) && Owner(kinds, k).None?
  }

  /** The fold's current package is the package of the last `@` line. */
  lemma {:induction false} ParseCurrent(kinds: seq<LineKind>, n: nat)
    requires n <= |kinds| && Fold(kinds, n).Ok?
    ensures Fold(kinds, n).value.current == Owner(kinds, n)
  {
    if n > 0 {
      ParseCurrent(kinds, n - 1);
    }
  }

  /** The fold fails exactly when some line needs the current package
      before any `@` line, and it reports the first such line. */
  lemma {:induction false} ParseFails(kinds: seq<LineKind>, n: nat)
    requires n <= |kinds|
    ensures Fold(kinds, n).Err? <==> exists k :: 0 <= k < n && Orphan(kinds, k)
    ensures Fold(kinds, n).Err? ==>
              var e := Fold(kinds, n).error.line;
              e < n && Orphan(kinds, e) && forall k :: 0 <= k < e ==> !Orphan(kinds, k)
  {
    if n > 0 {
      ParseFails(kinds, n - 1);
      if Fold(kinds, n - 1).Ok? {
        ParseCurrent(kinds, n - 1);
        var st := Fold(kinds, n - 1).value;
        assert Fold(kinds, n) == Step(st, kinds[n - 1], n - 1);
        if Fold(kinds, n).Err? {
          assert Orphan(kinds, n - 1);
        } else {
          assert !Orphan(kinds, n - 1);
        }
      }
    }
  }

  lemma ExpectedAfterRequires(kinds: seq<LineKind>, p: string, n: nat)
    requires 0 < n <= |kinds| && RequiresOf(kinds, p, n - 1)
    ensures Expected(kinds, p, n) == kinds[n - 1].deps && ExpectedKey(kinds, p, n)
  {
    assert LastRequires(kinds, p, n) == Some(n - 1);
  }

  lemma ExpectedAfterBase(kinds: seq<LineKind>, n: nat)
    requires 0 < n <= |kinds| && kinds[n - 1].BaseCategory? && Owner(kinds, n - 1).Some?
    ensures Expected(kinds, BasePackage, n) == Expected(kinds, BasePackage, n - 1) + [Owner(kinds, n - 1).value]
    ensures ExpectedKey(kinds, BasePackage, n)
  {
    assert !RequiresOf(kinds, BasePackage, n - 1);
    assert LastRequires(kinds, BasePackage, n) == LastRequires(kinds, BasePackage, n - 1);
  }

  lemma ExpectedUnchanged(kinds: seq<LineKind>, p: string, n: nat)
    requires 0 < n <= |kinds| && !RequiresOf(kinds, p, n - 1)
    requires !(kinds[n - 1].BaseCategory? && p == BasePackage)
    ensures Expected(kinds, p, n) == Expected(kinds, p, n - 1)
    ensures ExpectedKey(kinds, p, n) <==> ExpectedKey(kinds, p, n - 1)
  {
    assert LastRequires(kinds, p, n) == LastRequires(kinds, p, n - 1);
    if p == BasePackage && exists k :: 0 <= k < n && kinds[k].BaseCategory? {
      var k :| 0 <= k < n && kinds[k].BaseCategory?;
      assert k < n - 1;
    }
  }

  /** The graph after the first n lines holds, for every package p, what
      Expected describes, and has exactly the keys ExpectedKey describes. */
  lemma {:induction false} ParseGraph(kinds: seq<LineKind>, n: nat)
    requires n <= |kinds| && Fold(kinds, n).Ok?
    ensures var g := Fold(kinds, n).value.graph;
            forall p :: (p in g <==> ExpectedKey(kinds, p, n)) && Lookup(g, p) == Expected(kinds, p, n)
  {
    if n > 0 {
      ParseCurrent(kinds, n - 1);
      ParseGraph(kinds, n - 1);
      var st := Fold(kinds, n - 1).value;
      var g := Fold(kinds, n).value.graph;
      assert Fold(kinds, n) == Step(st, kinds[n - 1], n - 1);
      var kind := kinds[n - 1];
      forall p
        ensures (p in g <==> ExpectedKey(kinds, p, n)) && Lookup(g, p) == Expected(kinds, p, n)
      {
        if RequiresOf(kinds, p, n - 1) {
          ExpectedAfterRequires(kinds, p, n);
        } else if kind.BaseCategory? && p == BasePackage {
          ExpectedAfterBase(kinds, n);
        } else {
          ExpectedUnchanged(kinds, p, n);
        }
      }
    }
  }

  /** `parse_setup_ini` on a whole file: it fails at the first line that
      needs a current package before any `@` line; otherwise a package's
      entry is the word list of its last `requires:` line, and `base` also
      collects, in file order, the packages whose `category:` line names
      Base after that. */
  lemma ParseSetupIniMeaning(lines: seq<string>)
    ensures ParseSetupIni(lines).Err? <==> exists k :: 0 <= k < |lines| && Orphan(ClassifyAll(lines), k)
    ensures ParseSetupIni(lines).Err? ==>
              var e := ParseSetupIni(lines).error.line;
              e < |lines| && Orphan(ClassifyAll(lines), e) && forall k :: 0 <= k < e ==> !Orphan(ClassifyAll(lines), k)
    ensures ParseSetupIni(lines).Ok? ==>
              var g := ParseSetupIni(lines).value;
              forall p :: (p in g <==> ExpectedKey(ClassifyAll(lines), p, |lines|)) &&
                          Lookup(g, p) == Expected(ClassifyAll(lines), p, |lines|)
  {
    var kinds := ClassifyAll(lines);
    ParseFails(kinds, |lines|);
    if Fold(kinds, |lines|).Ok? {
      ParseGraph(kinds, |lines|);
    }
  }
}
