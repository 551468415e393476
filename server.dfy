/** The helpers of the repository server that work on names and paths:
    package and resource tallies over jar entry names, the simple manifest
    reader, coordinates read back from a repository path, the jar lookup,
    the class difference between two versions of a jar, and class names
    derived from class-file entries. */
module Server {
  import opened Wrappers
  import opened Strings
  import opened Ordering
  import opened Counters
  import opened FileTree
  import Analyzer
  import Catalog
  import Decompiler

  // ---------------------------------------------------------------------
  // Packages and resource kinds
  // ---------------------------------------------------------------------

  /** An entry that lies in a directory. */
  predicate InDirectory(name: string) {
    '/' in name
  }

  /** `_extract_packages`: the number of entries per package, over the
      entries that lie in a directory. */
  function PackageTally(classes: seq<string>): (r: Counter)
    ensures Valid(r)
  {
    Tally(classes, InDirectory, Decompiler.PackageOf)
  }

  method ExtractPackages(classes: seq<string>) returns (packages: Counter)
    ensures packages == PackageTally(classes)
  {
    packages := Empty();
    for i := 0 to |classes|
      invariant packages == PackageTally(classes[..i])
    {
      assert classes[..i + 1][..i] == classes[..i];
      var classFile := classes[i];
      if '/' in classFile {
        packages := Increment(packages, Decompiler.PackageOf(classFile));
      }
    }
    assert classes[..|classes|] == classes;
  }

  /** The package counts add up to the number of entries in a directory,
      and a package has a count exactly when such an entry lies in it: the
      number of those entries. */
  lemma PackageTallyExactly(classes: seq<string>, p: string)
    ensures Total(PackageTally(classes)) == CountWhere(classes, InDirectory)
    ensures p in PackageTally(classes).counts <==>
      exists i :: 0 <= i < |classes| && '/' in classes[i] && Decompiler.PackageOf(classes[i]) == p
    ensures p in PackageTally(classes).counts ==>
      PackageTally(classes).counts[p] == CountOf(classes, InDirectory, Decompiler.PackageOf, p)
  {
    TallyTotal(classes, InDirectory, Decompiler.PackageOf);
    TallyExactly(classes, InDirectory, Decompiler.PackageOf, p);
    TallyCount(classes, InDirectory, Decompiler.PackageOf, p);
  }

  const NoExtension := "no_extension"

  /** The kind of a resource: the lower-cased text after its last '.', or
      `no_extension` when it has no '.'. */
  function Extension(resource: string): string {
    if '.' in resource then
      var parts := Split(resource, '.');
      Lower(parts[|parts| - 1])
    else NoExtension
  }

  /** The kind is read from the text after the last '.'. */
  lemma ExtensionAfterLastDot(resource: string)
    requires '.' in resource
    ensures exists tail :: '.' !in tail && EndsWith(resource, "." + tail) && Extension(resource) == Lower(tail)
  {
    var parts := Split(resource, '.');
    SplitLastPiece(resource, '.');
    assert '.' !in parts[|parts| - 1];
  }

  /** Every resource entry is categorized. */
  predicate AnyResource(name: string) {
    true
  }

  /** `_categorize_resources`: the number of resources of each kind. */
  function ResourceKinds(resources: seq<string>): (r: Counter)
    ensures Valid(r)
  {
    Tally(resources, AnyResource, Extension)
  }

  method CategorizeResources(resources: seq<string>) returns (types: Counter)
    ensures types == ResourceKinds(resources)
  {
    types := Empty();
    for i := 0 to |resources|
      invariant types == ResourceKinds(resources[..i])
    {
      assert resources[..i + 1][..i] == resources[..i];
      types := Increment(types, Extension(resources[i]));
    }
    assert resources[..|resources|] == resources;
  }

  /** Every resource is counted once, under one kind, and a kind has a
      count exactly when some resource is of that kind: the number of
      resources of that kind. */
  lemma ResourceKindsExactly(resources: seq<string>, k: string)
    ensures Total(ResourceKinds(resources)) == |resources|
    ensures k in ResourceKinds(resources).counts <==> exists i :: 0 <= i < |resources| && Extension(resources[i]) == k
    ensures k in ResourceKinds(resources).counts ==> ResourceKinds(resources).counts[k] == CountOf(resources, AnyResource, Extension, k)
  {
    TallyTotal(resources, AnyResource, Extension);
    CountAll(resources);
    TallyExactly(resources, AnyResource, Extension, k);
    TallyCount(resources, AnyResource, Extension, k);
  }

  lemma {:induction false} CountAll(resources: seq<string>)
    ensures CountWhere(resources, AnyResource) == |resources|
  {
    if resources != [] {
      CountAll(resources[..|resources| - 1]);
    }
  }

  // ---------------------------------------------------------------------
  // The simple manifest reader
  // ---------------------------------------------------------------------

  /** One line: with a ':' it sets the stripped text before the first ':'
      to the stripped rest; without one it is ignored. Continuation lines
      are not joined. */
  function SimpleManifestLine(manifest: map<string, string>, line: string): map<string, string> {
    if ':' in line then
      var (key, value) := SplitOnce(line, ':');
      manifest[Strip(key) := Strip(value)]
    else manifest
  }

  function SimpleManifestOver(lines: seq<string>): map<string, string> {
    if lines == [] then map[]
    else SimpleManifestLine(SimpleManifestOver(lines[..|lines| - 1]), lines[|lines| - 1])
  }

  /** The server's `_parse_manifest`. */
  function SimpleManifestOf(content: string): map<string, string> {
    SimpleManifestOver(Split(content, '\n'))
  }

  method ParseManifest(content: string) returns (manifest: map<string, string>)
    ensures manifest == SimpleManifestOf(content)
  {
    manifest := map[];
    var lines := Split(content, '\n');
    for i := 0 to |lines|
      invariant manifest == SimpleManifestOver(lines[..i])
    {
      assert lines[..i + 1][..i] == lines[..i];
      var line := lines[i];
      if ':' in line {
        var (key, value) := SplitOnce(line, ':');
        manifest := manifest[Strip(key) := Strip(value)];
      }
    }
    assert lines[..|lines|] == lines;
  }

  lemma SimpleLastLine(lines: seq<string>, line: string)
    ensures SimpleManifestOver(lines + [line]) == SimpleManifestLine(SimpleManifestOver(lines), line)
  {
    assert (lines + [line])[..|lines|] == lines;
  }

  /** A line `key:value` sets the stripped key to the stripped value,
      replacing an earlier value of the same key. */
  lemma SimpleAttributeLine(lines: seq<string>, key: string, value: string)
    requires ':' !in key
    ensures SimpleManifestOver(lines + [key + ":" + value]) == SimpleManifestOver(lines)[Strip(key) := Strip(value)]
  {
    SimpleLastLine(lines, key + ":" + value);
    SplitOnceFirst(key, ':', value);
  }

  /** A line without ':', a continuation line among them, changes nothing. */
  lemma SimpleIgnoredLine(lines: seq<string>, line: string)
    requires ':' !in line
    ensures SimpleManifestOver(lines + [line]) == SimpleManifestOver(lines)
  {
    SimpleLastLine(lines, line);
  }

  /** On a manifest without continuation lines and without carriage
      returns at line ends, the simple reader and the decompiler's reader
      find the same attributes. */
  lemma {:induction false} ReadersAgree(lines: seq<string>)
    requires forall i :: 0 <= i < |lines| ==> !StartsWith(lines[i], " ")
    requires forall i :: 0 <= i < |lines| ==> lines[i] == [] || lines[i][|lines[i]| - 1] != '\r'
    ensures SimpleManifestOver(lines) == Decompiler.ManifestOver(lines).entries
  {
    if lines != [] {
      var init := lines[..|lines| - 1];
      var line := lines[|lines| - 1];
      ReadersAgree(init);
      SimpleLastLine(init, line);
      Decompiler.LastLine(init, line);
      assert lines == init + [line];
      assert RStripChar(line, '\r') == line;
    }
  }

  // ---------------------------------------------------------------------
  // Coordinates from paths
  // ---------------------------------------------------------------------

  datatype ArtifactInfo = ArtifactInfo(groupId: string, artifactId: string, version: string)

  const Unknown := "unknown"

  /** `_extract_artifact_info_from_path` for a path relative to the
      repository root: the version and artifact are the directories above
      the file, the group is the rest joined with '.'; a path too short
      for that yields "unknown" throughout. */
  function ArtifactInfoFromPath(parts: Path): (r: ArtifactInfo)
    ensures |parts| < 3 ==> r == ArtifactInfo(Unknown, Unknown, Unknown)
    ensures |parts| >= 3 ==> r.artifactId == parts[|parts| - 3] && r.version == parts[|parts| - 2]
  {
    match Analyzer.ArtifactFromPomPath(parts)
    case Some((g, a, v)) => ArtifactInfo(g, a, v)
    case None => ArtifactInfo(Unknown, Unknown, Unknown)
  }

  /** The directory of one version of an artifact:
      `maven_home / group.replace('.', sep) / artifact / version`. */
  function VersionDir(g: string, a: string, v: string): Path {
    Catalog.ArtifactDir(g, a) + Segments(v)
  }

  /** A file in a version directory gives back the coordinate of that
      version. */
  lemma ArtifactInfoRoundTrip(g: string, a: string, v: string, file: string)
    requires Analyzer.GroupOfParts(g) && ValidPart(a) && ValidPart(v)
    ensures ArtifactInfoFromPath(VersionDir(g, a, v) + [file]) == ArtifactInfo(g, a, v)
  {
    Analyzer.VersionFileRoundTrip(g, a, v, file);
  }

  /** `_path_to_group_id`: the parts of a relative path joined with '.'
      (`str` of an empty relative path is "."). */
  function PathToGroupId(parts: Path): string {
    if parts == [] then "." else ReplaceChar(Join(parts, '/'), '/', '.')
  }

  /** The group id of a group's directory is the group. */
  lemma GroupIdRoundTrip(g: string)
    requires Analyzer.GroupOfParts(g)
    ensures PathToGroupId(Segments(ReplaceChar(g, '.', '/'))) == g
  {
    Analyzer.GroupSegments(g);
    var pieces := Split(g, '.');
    assert forall i :: 0 <= i < |pieces| ==> '/' !in pieces[i] by {
      forall i | 0 <= i < |pieces| ensures '/' !in pieces[i] {
        JoinSplit(g, '.');
        PieceOfJoin(pieces, '.', i, '/');
      }
    }
    JoinReplaced(pieces, '/', '.');
    JoinSplit(g, '.');
  }

  /** A character absent from a joined string is absent from each piece. */
  lemma {:induction false} PieceOfJoin(parts: seq<string>, sep: char, i: nat, c: char)
    requires i < |parts| && c != sep && c !in Join(parts, sep)
    ensures c !in parts[i]
  {
    if |parts| > 1 {
      var j := Join(parts, sep);
      assert j == parts[0] + [sep] + Join(parts[1..], sep);
      if i == 0 {
        assert forall k :: 0 <= k < |parts[0]| ==> parts[0][k] == j[k];
      } else {
        assert forall k :: 0 <= k < |Join(parts[1..], sep)| ==> Join(parts[1..], sep)[k] == j[|parts[0]| + 1 + k];
        PieceOfJoin(parts[1..], sep, i - 1, c);
      }
    }
  }

  // ---------------------------------------------------------------------
  // Jar lookup
  // ---------------------------------------------------------------------

  /** The names ending in ".jar" in the directory at `dir` (none when
      there is no directory there). */
  function JarsIn(fs: Node, dir: Path): seq<string> {
    match Lookup(fs, dir)
    case Some(Dir(_, cs)) => NamesEndingWith(cs, ".jar")
    case _ => []
  }

  function MainJar(g: string, a: string, v: string): Path {
    VersionDir(g, a, v) + Segments(a + "-" + v + ".jar")
  }

  /** `_get_jar_path`: the jar named after the artifact and version when it
      exists, otherwise the first jar in the version directory. */
  function GetJarPath(fs: Node, g: string, a: string, v: string): (r: Option<Path>)
    ensures Exists(fs, MainJar(g, a, v)) ==> r == Some(MainJar(g, a, v))
    ensures r.Some? ==> Exists(fs, r.value)
    ensures r.None? <==> !Exists(fs, MainJar(g, a, v)) && JarsIn(fs, VersionDir(g, a, v)) == []
    ensures !Exists(fs, MainJar(g, a, v)) && r.Some? ==>
      r.value == VersionDir(g, a, v) + [JarsIn(fs, VersionDir(g, a, v))[0]] && EndsWith(r.value[|r.value| - 1], ".jar")
  {
    var main := MainJar(g, a, v);
    if Exists(fs, main) then Some(main)
    else
      var dir := VersionDir(g, a, v);
      var jars := JarsIn(fs, dir);
      if jars == [] then None
      else
        JarIsChild(fs, dir);
        Some(dir + [jars[0]])
  }

  /** The first jar listed in a directory is found below it. */
  lemma JarIsChild(fs: Node, dir: Path)
    requires JarsIn(fs, dir) != []
    ensures Exists(fs, dir + [JarsIn(fs, dir)[0]])
  {
    var d := Lookup(fs, dir).value;
    NamedChild(d.children, ".jar", 0);
    LookupChild(fs, dir, JarsIn(fs, dir)[0]);
  }

  lemma {:induction false} NamedChild(cs: seq<Node>, suffix: string, i: nat)
    requires i < |NamesEndingWith(cs, suffix)|
    ensures ChildNamed(cs, NamesEndingWith(cs, suffix)[i]).Some?
  {
    if EndsWith(cs[0].name, suffix) {
      if i > 0 {
        NamedChild(cs[1..], suffix, i - 1);
        ChildLater(cs, NamesEndingWith(cs[1..], suffix)[i - 1]);
      }
    } else {
      NamedChild(cs[1..], suffix, i);
      ChildLater(cs, NamesEndingWith(cs[1..], suffix)[i]);
    }
  }

  lemma ChildLater(cs: seq<Node>, name: string)
    requires cs != [] && ChildNamed(cs[1..], name).Some?
    ensures ChildNamed(cs, name).Some?
  {
  }

  /** Looking one step further down a path reaches a child of the
      directory at the path. */
  lemma {:induction false} LookupChild(n: Node, path: Path, name: string)
    requires Lookup(n, path).Some? && Lookup(n, path).value.Dir?
    requires ChildNamed(Lookup(n, path).value.children, name).Some?
    ensures Lookup(n, path + [name]) == ChildNamed(Lookup(n, path).value.children, name)
    decreases path
  {
    if path == [] {
      assert path + [name] == [name];
    } else {
      var c := ChildNamed(n.children, path[0]).value;
      assert (path + [name])[1..] == path[1..] + [name];
      LookupChild(c, path[1..], name);
    }
  }

  function SourcesJar(g: string, a: string, v: string): Path {
    VersionDir(g, a, v) + Segments(a + "-" + v + "-sources.jar")
  }

  /** `_get_sources_jar_path`: the sources jar named after the artifact and
      version, when it exists. */
  function GetSourcesJarPath(fs: Node, g: string, a: string, v: string): (r: Option<Path>)
    ensures r.Some? <==> Exists(fs, SourcesJar(g, a, v))
    ensures r.Some? ==> r.value == SourcesJar(g, a, v)
  {
    if Exists(fs, SourcesJar(g, a, v)) then Some(SourcesJar(g, a, v)) else None
  }

  // ---------------------------------------------------------------------
  // Class difference between two versions
  // ---------------------------------------------------------------------

  /** The class entries of a jar, as a set. */
  function ClassSet(names: seq<string>): set<string> {
    set e | e in names && Decompiler.IsClassEntry(e)
  }

  /** Each string once, at its first occurrence. */
  function Unique(xs: seq<string>): (r: seq<string>)
    ensures forall i, j :: 0 <= i < j < |r| ==> r[i] != r[j]
    ensures forall x :: x in r <==> x in xs
  {
    if xs == [] then []
    else
      var u := Unique(xs[..|xs| - 1]);
      assert xs == xs[..|xs| - 1] + [xs[|xs| - 1]];
      if xs[|xs| - 1] in u then u else u + [xs[|xs| - 1]]
  }

  /** The class entries among `names` outside `other`. */
  function ClassesOutside(names: seq<string>, other: set<string>): (r: seq<string>)
    ensures forall x :: x in r <==> x in names && Decompiler.IsClassEntry(x) && x !in other
  {
    if names == [] then []
    else
      var init := ClassesOutside(names[..|names| - 1], other);
      var name := names[|names| - 1];
      assert names == names[..|names| - 1] + [name];
      if Decompiler.IsClassEntry(name) && name !in other then init + [name] else init
  }

  /** The class part of `_compare_versions`. */
  datatype ClassComparison = ClassComparison(sizeDiff: int, added: seq<string>, removed: seq<string>, common: nat)

  function CompareClasses(names1: seq<string>, names2: seq<string>, size1: int, size2: int): ClassComparison {
    var c1 := ClassSet(names1);
    var c2 := ClassSet(names2);
    ClassComparison(size2 - size1,
      Sorted(Unique(ClassesOutside(names2, c1))),
      Sorted(Unique(ClassesOutside(names1, c2))),
      |c1 * c2|)
  }

  /** Added classes are those of the second jar only, removed ones those of
      the first jar only; no class is both. */
  lemma CompareMembers(names1: seq<string>, names2: seq<string>, size1: int, size2: int, c: string)
    ensures var r := CompareClasses(names1, names2, size1, size2);
      && (c in r.added <==> c in ClassSet(names2) - ClassSet(names1))
      && (c in r.removed <==> c in ClassSet(names1) - ClassSet(names2))
      && !(c in r.added && c in r.removed)
      && r.sizeDiff == size2 - size1
  {
    var c1 := ClassSet(names1);
    var c2 := ClassSet(names2);
    var added := Unique(ClassesOutside(names2, c1));
    var removed := Unique(ClassesOutside(names1, c2));
    SortedMembers(added, c);
    SortedMembers(removed, c);
  }

  /** Both lists are in strictly increasing order, and with the common
      count they account for every class of each jar. */
  lemma CompareCounts(names1: seq<string>, names2: seq<string>, size1: int, size2: int)
    ensures var r := CompareClasses(names1, names2, size1, size2);
      && StrictlyIncreasing(r.added) && StrictlyIncreasing(r.removed)
      && |r.added| + r.common == |ClassSet(names2)|
      && |r.removed| + r.common == |ClassSet(names1)|
  {
    var c1 := ClassSet(names1);
    var c2 := ClassSet(names2);
    var r := CompareClasses(names1, names2, size1, size2);
    assert r.added == Sorted(Unique(ClassesOutside(names2, c1))) && r.common == |c1 * c2|;
    assert r.removed == Sorted(Unique(ClassesOutside(names1, c2)));
    SortedSide(Unique(ClassesOutside(names2, c1)), c2, c1);
    SortedSide(Unique(ClassesOutside(names1, c2)), c1, c2);
    assert c2 * c1 == c1 * c2;
  }

  /** One side of the comparison: the sorted classes of `mine` outside
      `theirs`, listed once each, are strictly increasing and together with
      the common ones make up all of `mine`. */
  lemma SortedSide(xs: seq<string>, mine: set<string>, theirs: set<string>)
    requires forall i, j :: 0 <= i < j < |xs| ==> xs[i] != xs[j]
    requires forall x :: x in xs <==> x in mine - theirs
    ensures StrictlyIncreasing(Sorted(xs))
    ensures |Sorted(xs)| + |theirs * mine| == |mine|
  {
    SortedDistinctIsStrict(xs);
    DistinctCardinality(xs);
    assert (set x | x in xs) == mine - theirs;
    assert mine == (mine - theirs) + (theirs * mine);
    assert |Sorted(xs)| == |xs| by {
      assert |multiset(Sorted(xs))| == |multiset(xs)|;
    }
  }

  /** A sequence without repetitions has as many elements as its set. */
  lemma {:induction false} DistinctCardinality(xs: seq<string>)
    requires forall i, j :: 0 <= i < j < |xs| ==> xs[i] != xs[j]
    ensures |set x | x in xs| == |xs|
  {
    if xs != [] {
      var init := xs[..|xs| - 1];
      var last := xs[|xs| - 1];
      DistinctCardinality(init);
      assert (set x | x in xs) == (set x | x in init) + {last} by {
        assert xs == init + [last];
      }
      assert last !in init;
    }
  }

  /** The sorted lists do not depend on the order of the jar entries: any
      strictly increasing list of the same classes is the one produced. */
  lemma CompareOrderFree(names1: seq<string>, names2: seq<string>, size1: int, size2: int, added: seq<string>)
    requires StrictlyIncreasing(added)
    requires forall c :: c in added <==> c in ClassSet(names2) - ClassSet(names1)
    ensures CompareClasses(names1, names2, size1, size2).added == added
  {
    var r := CompareClasses(names1, names2, size1, size2);
    CompareCounts(names1, names2, size1, size2);
    forall c ensures c in r.added <==> c in added {
      CompareMembers(names1, names2, size1, size2, c);
    }
    StrictlyIncreasingUnique(r.added, added);
  }

  // ---------------------------------------------------------------------
  // Class names
  // ---------------------------------------------------------------------

  const ClassSuffix := ".class"

  /** The class name `_extract_class_info` derives from an entry, as
      written: '/' becomes '.', then every ".class" is removed. */
  function ClassNameAsWritten(entry: string): string {
    ReplaceAll(ReplaceChar(entry, '/', '.'), ClassSuffix, "")
  }

  /** The class name of a class-file entry: the entry without its ".class"
      suffix, with '/' turned into '.'. */
  function ClassName(entry: string): (r: string)
    requires Decompiler.IsClassEntry(entry)
    ensures |r| == |entry| - |ClassSuffix|
  {
    ReplaceChar(entry[..|entry| - |ClassSuffix|], '/', '.')
  }

  /** The entry of a class, as the decompiler looks it up. */
  function ClassFilePath(name: string): (r: string)
    ensures Decompiler.IsClassEntry(r)
  {
    ReplaceChar(name, '.', '/') + ClassSuffix
  }

  /** Class name and class entry are inverse for names without '/' ... */
  lemma ClassNameOfPath(name: string)
    requires '/' !in name
    ensures ClassName(ClassFilePath(name)) == name
  {
    var e := ClassFilePath(name);
    assert e[..|e| - |ClassSuffix|] == ReplaceChar(name, '.', '/');
    var r := ClassName(e);
    assert forall i :: 0 <= i < |r| ==> r[i] == name[i];
  }

  /** ... and for entries whose directories and file name hold no '.'. */
  lemma PathOfClassName(entry: string)
    requires Decompiler.IsClassEntry(entry) && '.' !in entry[..|entry| - |ClassSuffix|]
    ensures ClassFilePath(ClassName(entry)) == entry
  {
    var stem := entry[..|entry| - |ClassSuffix|];
    var p := ReplaceChar(ClassName(entry), '.', '/');
    assert forall i :: 0 <= i < |p| ==> p[i] == stem[i];
    assert entry == stem + ClassSuffix;
  }

  /** With '/' turned into '.', an entry is its class name followed by
      the suffix. */
  lemma DottedEntry(entry: string)
    requires Decompiler.IsClassEntry(entry)
    ensures ReplaceChar(entry, '/', '.') == ClassName(entry) + ClassSuffix
  {
    var stem := entry[..|entry| - |ClassSuffix|];
    calc {
      ReplaceChar(entry, '/', '.');
    == { assert entry == stem + ClassSuffix; }
      ReplaceChar(stem + ClassSuffix, '/', '.');
    == { ReplaceConcat(stem, ClassSuffix, '/', '.'); }
      ReplaceChar(stem, '/', '.') + ReplaceChar(ClassSuffix, '/', '.');
    == { ReplaceAbsent(ClassSuffix, '/', '.'); }
      ClassName(entry) + ClassSuffix;
    }
  }

  /** The name as written is the class name exactly when the class name
      holds no ".class" of its own (as "org.classic.Util" does). */
  lemma AsWrittenExactly(entry: string)
    requires Decompiler.IsClassEntry(entry)
    ensures ClassNameAsWritten(entry) == ClassName(entry) <==> !Contains(ClassName(entry), ClassSuffix)
  {
    DottedEntry(entry);
    if Contains(ClassName(entry), ClassSuffix) {
      RemoveAllTwice(ClassName(entry), ClassSuffix);
    } else {
      RemoveFinalSuffix(ClassName(entry));
    }
  }

  /** Removing every ".class" from a text that ends with the only one. */
  lemma {:induction false} RemoveFinalSuffix(x: string)
    requires !Contains(x, ClassSuffix)
    ensures ReplaceAll(x + ClassSuffix, ClassSuffix, "") == x
    decreases |x|
  {
    var s := x + ClassSuffix;
    if x == [] {
      assert s[..|ClassSuffix|] == ClassSuffix;
      assert s[|ClassSuffix|..] == [];
    } else {
      assert s[..|ClassSuffix|] != ClassSuffix by {
        if |x| >= |ClassSuffix| {
          assert s[..|ClassSuffix|] == x[..|ClassSuffix|];
          assert !(ClassSuffix <= x);
        } else {
          assert s[|x|] == '.';
          assert ClassSuffix[|x|] != '.';
        }
      }
      assert s[1..] == x[1..] + ClassSuffix;
      RemoveFinalSuffix(x[1..]);
      assert [x[0]] + x[1..] == x;
    }
  }

  /** The package of a class: every dot-separated piece but the last. */
  function PackageOfClass(name: string): string {
    if '.' in name then
      var parts := Split(name, '.');
      Join(parts[..|parts| - 1], '.')
    else ""
  }

  /** The simple name of a class: its last dot-separated piece. */
  function SimpleName(name: string): (r: string)
    ensures '.' !in r
  {
    var parts := Split(name, '.');
    parts[|parts| - 1]
  }

  /** A qualified name is its package, a '.', and its simple name. */
  lemma QualifiedName(name: string)
    ensures '.' in name ==> name == PackageOfClass(name) + "." + SimpleName(name)
    ensures '.' !in name ==> PackageOfClass(name) == "" && SimpleName(name) == name
  {
    var parts := Split(name, '.');
    if '.' in name {
      calc {
        name;
      == { JoinSplit(name, '.'); }
        Join(parts, '.');
      == { JoinLast(parts, '.'); }
        Join(parts[..|parts| - 1], '.') + ['.'] + parts[|parts| - 1];
      }
    } else {
      SplitNoSep(name, '.');
    }
  }

  lemma {:induction false} JoinLast(parts: seq<string>, sep: char)
    requires |parts| >= 2
    ensures Join(parts, sep) == Join(parts[..|parts| - 1], sep) + [sep] + parts[|parts| - 1]
  {
    if |parts| > 2 {
      JoinLast(parts[1..], sep);
      assert parts[1..][..|parts| - 2] == parts[..|parts| - 1][1..];
    }
  }

  datatype ClassInfo = ClassInfo(className: string, filePath: string, package: string, simpleName: string)

  /** The class records `_extract_class_info` makes for a jar when no
      pattern is given, one per class entry, in archive order. */
  function ClassInfos(names: seq<string>): (r: seq<ClassInfo>)
    ensures |r| == Decompiler.ClassCount(names)
    ensures forall i :: 0 <= i < |r| ==> Decompiler.IsClassEntry(r[i].filePath) && r[i].filePath in names
  {
    if names == [] then []
    else
      var init := ClassInfos(names[..|names| - 1]);
      var e := names[|names| - 1];
      if Decompiler.IsClassEntry(e) then
        var name := ClassName(e);
        init + [ClassInfo(name, e, PackageOfClass(name), SimpleName(name))]
      else init
  }

  /** The records of two runs of entries are the first run's followed by
      the second's: one record per class entry, in archive order. */
  lemma {:induction false} ClassInfosAppend(xs: seq<string>, ys: seq<string>)
    ensures ClassInfos(xs + ys) == ClassInfos(xs) + ClassInfos(ys)
    decreases |ys|
  {
    if ys == [] {
      assert xs + ys == xs;
    } else {
      var n := |ys| - 1;
      assert (xs + ys)[..|xs + ys| - 1] == xs + ys[..n];
      ClassInfosAppend(xs, ys[..n]);
    }
  }

  /** One entry gives one record for a class entry and none otherwise. */
  lemma ClassInfosOne(e: string)
    ensures ClassInfos([e]) == if Decompiler.IsClassEntry(e) then [ClassInfo(ClassName(e), e, PackageOfClass(ClassName(e)), SimpleName(ClassName(e)))] else []
  {
    assert [e][..0] == [];
  }

  /** The class record of an entry names its class by the entry and splits
      that name into package and simple name. */
  lemma ClassInfoParts(names: seq<string>, i: nat)
    requires i < |ClassInfos(names)|
    ensures var c := ClassInfos(names)[i];
      && c.className == ClassName(c.filePath)
      && ('.' in c.className ==> c.className == c.package + "." + c.simpleName)
      && ('.' !in c.className ==> c.package == "" && c.simpleName == c.className)
  {
    ClassInfoAt(names, i);
    QualifiedName(ClassInfos(names)[i].className);
  }

  lemma {:induction false} ClassInfoAt(names: seq<string>, i: nat)
    requires i < |ClassInfos(names)|
    ensures var c := ClassInfos(names)[i];
      c.className == ClassName(c.filePath) && c.package == PackageOfClass(c.className) && c.simpleName == SimpleName(c.className)
  {
    var init := names[..|names| - 1];
    if i < |ClassInfos(init)| {
      ClassInfoAt(init, i);
    }
  }
}
