/** The repository queries of the analyzer: `get_version_info` (the
    versions of an artifact) and `find_dependents` (the POMs that depend on
    an artifact). */
module Catalog {
  import opened Wrappers
  import opened Strings
  import opened Ordering
  import opened Xml
  import opened FileTree
  import opened Pom
  import opened Analyzer

  /** One version directory: its name, whether the POM and the jar named
      after it exist, and its path. */
  datatype VersionInfo = VersionInfo(version: string, hasPom: bool, hasJar: bool, path: Path)

  /** `get_version_info`'s record. */
  datatype VersionReport = VersionReport(artifact: string, versions: seq<VersionInfo>, total: nat)

  /** The directory of an artifact: `maven_home / group.replace('.', '/') / artifact`. */
  function ArtifactDir(g: string, a: string): Path {
    Segments(ReplaceChar(g, '.', '/')) + Segments(a)
  }

  /** The record of one entry of the artifact directory, when it is a
      directory. */
  function VersionOf(a: string, at: Path, n: Node): Option<VersionInfo> {
    match n
    case File(_, _) => None
    case Dir(name, _) =>
      Some(VersionInfo(name,
        Exists(n, Segments(a + "-" + name + ".pom")),
        Exists(n, Segments(a + "-" + name + ".jar")),
        at + [name]))
  }

  /** The records of the version directories, in directory order. */
  function VersionsIn(a: string, at: Path, entries: seq<Node>): (r: seq<VersionInfo>)
    ensures |r| <= |entries|
  {
    if entries == [] then []
    else
      var init := VersionsIn(a, at, entries[..|entries| - 1]);
      match VersionOf(a, at, entries[|entries| - 1])
      case None => init
      case Some(info) => init + [info]
  }

  function VersionKey(info: VersionInfo): string {
    info.version
  }

  /** The report: `None` when the artifact path is a file (`iterdir`
      raises); no versions when it does not exist. */
  function VersionReportOf(fs: Node, g: string, a: string): Option<VersionReport> {
    var at := ArtifactDir(g, a);
    match Lookup(fs, at)
    case None => Some(VersionReport(g + ":" + a, [], 0))
    case Some(File(_, _)) => None
    case Some(Dir(_, entries)) =>
      var versions := SortBy(VersionsIn(a, at, entries), VersionKey, true);
      Some(VersionReport(g + ":" + a, versions, |versions|))
  }

  /** `get_version_info(group, artifact)`; pom size and modification time
      are not modelled. */
  method GetVersionInfo(fs: Node, g: string, a: string) returns (r: Option<VersionReport>)
    ensures r == VersionReportOf(fs, g, a)
  {
    var at := ArtifactDir(g, a);
    var found := Lookup(fs, at);
    if found.None? {
      return Some(VersionReport(g + ":" + a, [], 0));
    }
    if found.value.File? {
      return None;
    }
    var entries := found.value.children;
    var versions: seq<VersionInfo> := [];
    var i := 0;
    while i < |entries|
      invariant 0 <= i <= |entries|
      invariant versions == VersionsIn(a, at, entries[..i])
    {
      assert entries[..i + 1][..i] == entries[..i];
      var entry := entries[i];
      if entry.Dir? {
        var name := entry.name;
        var hasPom := Exists(entry, Segments(a + "-" + name + ".pom"));
        var hasJar := Exists(entry, Segments(a + "-" + name + ".jar"));
        versions := versions + [VersionInfo(name, hasPom, hasJar, at + [name])];
      }
      i := i + 1;
    }
    assert entries[..i] == entries;
    versions := SortBy(versions, VersionKey, true);
    r := Some(VersionReport(g + ":" + a, versions, |versions|));
  }

  /** The report lists every version directory once, newest name first
      (plain string order, descending), and counts them. */
  lemma VersionReportSorted(fs: Node, g: string, a: string)
    requires VersionReportOf(fs, g, a).Some?
    requires Lookup(fs, ArtifactDir(g, a)).Some? && Lookup(fs, ArtifactDir(g, a)).value.Dir?
    ensures var rep := VersionReportOf(fs, g, a).value;
      var entries := Lookup(fs, ArtifactDir(g, a)).value.children;
      multiset(rep.versions) == multiset(VersionsIn(a, ArtifactDir(g, a), entries))
      && SortedBy(rep.versions, VersionKey, true)
      && rep.total == |rep.versions|
  {
  }

  /** A version record exists for exactly the directories among the
      entries, and says whether the POM and jar named after it exist. */
  lemma VersionsExactly(a: string, at: Path, entries: seq<Node>, info: VersionInfo)
    ensures info in VersionsIn(a, at, entries) <==>
      exists i :: 0 <= i < |entries| && VersionOf(a, at, entries[i]) == Some(info)
  {
    if info in VersionsIn(a, at, entries) {
      VersionsFromEntries(a, at, entries, info);
    }
    if exists i :: 0 <= i < |entries| && VersionOf(a, at, entries[i]) == Some(info) {
      var i :| 0 <= i < |entries| && VersionOf(a, at, entries[i]) == Some(info);
      EntriesGiveVersions(a, at, entries, i);
    }
  }

  lemma {:induction false} VersionsFromEntries(a: string, at: Path, entries: seq<Node>, info: VersionInfo)
    requires info in VersionsIn(a, at, entries)
    ensures exists i :: 0 <= i < |entries| && VersionOf(a, at, entries[i]) == Some(info)
  {
    var init := entries[..|entries| - 1];
    VersionsStep(a, at, entries);
    if info in VersionsIn(a, at, init) {
      VersionsFromEntries(a, at, init, info);
      var i :| 0 <= i < |init| && VersionOf(a, at, init[i]) == Some(info);
      assert entries[i] == init[i];
    } else {
      assert VersionOf(a, at, entries[|entries| - 1]) == Some(info);
    }
  }

  lemma {:induction false} EntriesGiveVersions(a: string, at: Path, entries: seq<Node>, i: nat)
    requires i < |entries| && VersionOf(a, at, entries[i]).Some?
    ensures VersionOf(a, at, entries[i]).value in VersionsIn(a, at, entries)
  {
    var init := entries[..|entries| - 1];
    VersionsStep(a, at, entries);
    if i < |init| {
      assert entries[i] == init[i];
      EntriesGiveVersions(a, at, init, i);
    }
  }

  lemma VersionsStep(a: string, at: Path, entries: seq<Node>)
    requires entries != []
    ensures var last := VersionOf(a, at, entries[|entries| - 1]);
      VersionsIn(a, at, entries) == VersionsIn(a, at, entries[..|entries| - 1]) + (if last.Some? then [last.value] else [])
  {
  }

  // ---------------------------------------------------------------------
  // Dependents

  /** One dependent: the coordinate read back from its POM path, the
      version it asks for, and its scope. */
  datatype Dependent = Dependent(
    groupId: string, artifactId: string, version: string, pomPath: Path,
    dependsOnVersion: Option<string>, scope: string)

  /** The matching rule: the group and artifact texts equal the target's,
      and the version text equals the searched one when a non-empty one is
      given. */
  predicate Wanted(dep: Element, target: (string, string), searchVersion: Option<string>) {
    ChildText(dep, "groupId") == Some(target.0) && ChildText(dep, "artifactId") == Some(target.1)
    && (!Truthy(searchVersion) || ChildText(dep, "version") == searchVersion)
  }

  function DependentOf(dep: Element, path: Path, c: (string, string, string)): Dependent {
    Dependent(c.0, c.1, c.2, path, ChildText(dep, "version"), OrDefault(ChildText(dep, "scope"), "compile"))
  }

  /** The dependents one POM contributes, from its `dependency` elements. */
  function DependentsIn(deps: seq<Element>, target: (string, string), searchVersion: Option<string>, path: Path): seq<Dependent> {
    if deps == [] then []
    else
      var init := DependentsIn(deps[..|deps| - 1], target, searchVersion, path);
      var dep := deps[|deps| - 1];
      var coordinate := ArtifactFromPomPath(path);
      if Wanted(dep, target, searchVersion) && coordinate.Some? then init + [DependentOf(dep, path, coordinate.value)]
      else init
  }

  /** The namespace-free root of a scanned entry, when it parses. */
  function ReadPom(n: Node): Option<Element> {
    match n
    case File(_, XmlDoc(root)) => RemoveNamespace(root)
    case _ => None
  }

  /** The dependents one scanned entry contributes; one that does not
      parse contributes none. */
  function PomDependents(path: Path, n: Node, target: (string, string), searchVersion: Option<string>): seq<Dependent> {
    match ReadPom(n)
    case None => []
    case Some(root) => DependentsIn(FindAllDescendants(root, "dependency"), target, searchVersion, path)
  }

  /** Every `*.pom` entry of the scan in turn. */
  function DependentsOver(scan: seq<(Path, Node)>, target: (string, string), searchVersion: Option<string>): seq<Dependent> {
    if scan == [] then []
    else
      DependentsOver(scan[..|scan| - 1], target, searchVersion)
        + PomDependents(scan[|scan| - 1].0, scan[|scan| - 1].1, target, searchVersion)
  }

  /** `find_dependents(group, artifact, search_version)`. */
  method FindDependents(fs: Node, targetGroup: string, targetArtifact: string, searchVersion: Option<string>)
    returns (dependents: seq<Dependent>)
    ensures dependents == DependentsOver(Scan(fs, [], ".pom"), (targetGroup, targetArtifact), searchVersion)
  {
    var scan := Scan(fs, [], ".pom");
    var target := (targetGroup, targetArtifact);
    dependents := [];
    var i := 0;
    while i < |scan|
      invariant 0 <= i <= |scan|
      invariant dependents == DependentsOver(scan[..i], target, searchVersion)
    {
      DependentsOverStep(scan, i, target, searchVersion);
      var (path, n) := scan[i];
      var root := ReadPom(n);
      if root.Some? {
        var found := CollectDependents(FindAllDescendants(root.value, "dependency"), path, target, searchVersion);
        dependents := dependents + found;
      }
      i := i + 1;
    }
    assert scan[..i] == scan;
  }

  /** The inner loop of `find_dependents`: the matching `dependency`
      elements of one POM, in document order. */
  method CollectDependents(deps: seq<Element>, path: Path, target: (string, string), searchVersion: Option<string>)
    returns (found: seq<Dependent>)
    ensures found == DependentsIn(deps, target, searchVersion, path)
  {
    found := [];
    var j := 0;
    while j < |deps|
      invariant 0 <= j <= |deps|
      invariant found == DependentsIn(deps[..j], target, searchVersion, path)
    {
      var dep := deps[j];
      DependentsInStep(deps, j, target, searchVersion, path);
      if ChildText(dep, "groupId") == Some(target.0) && ChildText(dep, "artifactId") == Some(target.1) {
        if !Truthy(searchVersion) || ChildText(dep, "version") == searchVersion {
          var coordinate := ArtifactFromPomPath(path);
          if coordinate.Some? {
            found := found + [DependentOf(dep, path, coordinate.value)];
          }
        }
      }
      j := j + 1;
    }
    assert deps[..j] == deps;
  }

  /** The dependents over one scanned entry more. */
  lemma DependentsOverStep(scan: seq<(Path, Node)>, i: nat, target: (string, string), searchVersion: Option<string>)
    requires i < |scan|
    ensures DependentsOver(scan[..i + 1], target, searchVersion)
      == DependentsOver(scan[..i], target, searchVersion) + PomDependents(scan[i].0, scan[i].1, target, searchVersion)
  {
    assert scan[..i + 1][..i] == scan[..i];
  }

  lemma DependentsInStep(deps: seq<Element>, j: nat, target: (string, string), searchVersion: Option<string>, path: Path)
    requires j < |deps|
    ensures DependentsIn(deps[..j + 1], target, searchVersion, path) == DependentsIn(deps[..j], target, searchVersion, path)
      + (if Wanted(deps[j], target, searchVersion) && ArtifactFromPomPath(path).Some?
         then [DependentOf(deps[j], path, ArtifactFromPomPath(path).value)] else [])
  {
    assert deps[..j + 1][..j] == deps[..j];
  }

  /** A POM contributes a dependent for exactly its matching `dependency`
      elements, when its path has at least three parts. */
  lemma DependentsInExactly(deps: seq<Element>, target: (string, string), searchVersion: Option<string>, path: Path, x: Dependent)
    ensures x in DependentsIn(deps, target, searchVersion, path) <==>
      (|path| >= 3 && exists i :: 0 <= i < |deps| && Wanted(deps[i], target, searchVersion)
                                 && x == DependentOf(deps[i], path, ArtifactFromPomPath(path).value))
  {
    if x in DependentsIn(deps, target, searchVersion, path) {
      DependentFromDependency(deps, target, searchVersion, path, x);
    }
    if |path| >= 3 && exists i :: 0 <= i < |deps| && Wanted(deps[i], target, searchVersion)
                                 && x == DependentOf(deps[i], path, ArtifactFromPomPath(path).value) {
      var i :| 0 <= i < |deps| && Wanted(deps[i], target, searchVersion)
               && x == DependentOf(deps[i], path, ArtifactFromPomPath(path).value);
      DependencyGivesDependent(deps, target, searchVersion, path, i);
    }
  }

  /** The dependents of the first `j` elements begin those of all of them. */
  lemma {:induction false} DependentsInPrefix(deps: seq<Element>, target: (string, string), searchVersion: Option<string>, path: Path, j: nat)
    requires j <= |deps|
    ensures DependentsIn(deps[..j], target, searchVersion, path) <= DependentsIn(deps, target, searchVersion, path)
  {
    if j == |deps| {
      assert deps[..j] == deps;
    } else {
      var init := deps[..|deps| - 1];
      DependentsInPrefix(init, target, searchVersion, path, j);
      assert init[..j] == deps[..j];
      assert DependentsIn(init, target, searchVersion, path) <= DependentsIn(deps, target, searchVersion, path);
    }
  }

  lemma {:induction false} DependentFromDependency(deps: seq<Element>, target: (string, string), searchVersion: Option<string>, path: Path, x: Dependent)
    requires x in DependentsIn(deps, target, searchVersion, path)
    ensures |path| >= 3 && exists i :: 0 <= i < |deps| && Wanted(deps[i], target, searchVersion)
                                      && x == DependentOf(deps[i], path, ArtifactFromPomPath(path).value)
  {
    var init := deps[..|deps| - 1];
    var last := |deps| - 1;
    DependentsInStep(deps, last, target, searchVersion, path);
    assert deps[..last + 1] == deps && deps[..last] == init;
    if x in DependentsIn(init, target, searchVersion, path) {
      DependentFromDependency(init, target, searchVersion, path, x);
      var i :| 0 <= i < |init| && Wanted(init[i], target, searchVersion)
               && x == DependentOf(init[i], path, ArtifactFromPomPath(path).value);
      assert init[i] == deps[i];
    } else {
      assert Wanted(deps[last], target, searchVersion);
    }
  }

  lemma DependencyGivesDependent(deps: seq<Element>, target: (string, string), searchVersion: Option<string>, path: Path, i: nat)
    requires |path| >= 3 && i < |deps| && Wanted(deps[i], target, searchVersion)
    ensures DependentOf(deps[i], path, ArtifactFromPomPath(path).value) in DependentsIn(deps, target, searchVersion, path)
  {
    var upTo := DependentsIn(deps[..i + 1], target, searchVersion, path);
    DependentsInStep(deps, i, target, searchVersion, path);
    DependentsInPrefix(deps, target, searchVersion, path, i + 1);
    assert DependentsIn(deps, target, searchVersion, path)[|upTo| - 1] == upTo[|upTo| - 1];
  }

  /** Some element of `deps` names the target and gives the dependent `x`. */
  ghost predicate MatchedIn(deps: seq<Element>, target: (string, string), searchVersion: Option<string>, x: Dependent) {
    ArtifactFromPomPath(x.pomPath).Some? &&
    exists j :: 0 <= j < |deps| && Wanted(deps[j], target, searchVersion) && x == DependentOf(deps[j], x.pomPath, ArtifactFromPomPath(x.pomPath).value)
  }

  /** Every dependent found comes from a `dependency` element of a parsed
      POM that names the target (and the searched version when one is
      given), asks for the searched version when one is given, and carries
      the coordinate of its POM's path. */
  lemma {:induction false} DependentsMatch(scan: seq<(Path, Node)>, target: (string, string), searchVersion: Option<string>, x: Dependent)
    requires x in DependentsOver(scan, target, searchVersion)
    ensures Truthy(searchVersion) ==> x.dependsOnVersion == searchVersion
    ensures exists i :: 0 <= i < |scan| && scan[i].0 == x.pomPath && ReadPom(scan[i].1).Some?
    ensures |x.pomPath| >= 3 && ArtifactFromPomPath(x.pomPath) == Some((x.groupId, x.artifactId, x.version))
    ensures exists i ::
      && 0 <= i < |scan| && scan[i].0 == x.pomPath && ReadPom(scan[i].1).Some?
      && MatchedIn(FindAllDescendants(ReadPom(scan[i].1).value, "dependency"), target, searchVersion, x)
  {
    var init := scan[..|scan| - 1];
    var (path, n) := scan[|scan| - 1];
    assert DependentsOver(scan, target, searchVersion) == DependentsOver(init, target, searchVersion) + PomDependents(path, n, target, searchVersion);
    if x in DependentsOver(init, target, searchVersion) {
      DependentsMatch(init, target, searchVersion, x);
      var i :| 0 <= i < |init| && init[i].0 == x.pomPath && ReadPom(init[i].1).Some?;
      assert scan[i] == init[i];
      var k :| 0 <= k < |init| && init[k].0 == x.pomPath && ReadPom(init[k].1).Some?
        && MatchedIn(FindAllDescendants(ReadPom(init[k].1).value, "dependency"), target, searchVersion, x);
      assert scan[k] == init[k];
    } else {
      var root := ReadPom(n).value;
      var deps := FindAllDescendants(root, "dependency");
      DependentsInExactly(deps, target, searchVersion, path, x);
      var j :| 0 <= j < |deps| && Wanted(deps[j], target, searchVersion)
        && x == DependentOf(deps[j], path, ArtifactFromPomPath(path).value);
      assert MatchedIn(deps, target, searchVersion, x);
      assert scan[|scan| - 1].0 == x.pomPath;
    }
  }
}
