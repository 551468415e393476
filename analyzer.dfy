/** `analyze_dependencies` without the transitive part: locating a POM in
    the local repository, reading it, and merging the parent's properties
    (`_get_pom_path`, `_get_parent_properties`, `_extract_artifact_from_pom_path`). */
module Analyzer {
  import opened Wrappers
  import opened Strings
  import opened Xml
  import opened FileTree
  import opened Pom

  /** Why an analysis gives no descriptor. `MissingCoordinate` stands for
      the exception `_get_pom_path` raises on a `None` coordinate, which
      every caller inside the analyzer catches like an error result. */
  datatype AnalyzeError =
    | PomNotFound(coordinate: string)
    | NotParsed
    | NamespaceError
    | MissingCoordinate

  /** The analysis record without `transitive_dependencies` and `conflicts`. */
  datatype Descriptor = Descriptor(
    artifact: string,
    pomPath: Path,
    direct: seq<Dependency>,
    managed: seq<Dependency>,
    properties: map<string, string>,
    parent: Option<ParentRef>,
    modules: seq<string>)

  /** `maven_home / group.replace('.', '/') / artifact / version / f"{artifact}-{version}.pom"`,
      relative to the repository root. */
  function PomPath(g: string, a: string, v: string): Path {
    Segments(ReplaceChar(g, '.', '/')) + Segments(a) + Segments(v) + Segments(a + "-" + v + ".pom")
  }

  /** `_get_pom_path`: the path when something exists there. */
  function GetPomPath(fs: Node, g: string, a: string, v: string): (r: Option<Path>)
    ensures r.Some? <==> Exists(fs, PomPath(g, a, v))
    ensures r.Some? ==> r.value == PomPath(g, a, v)
  {
    var p := PomPath(g, a, v);
    if Exists(fs, p) then Some(p) else None
  }

  /** Something exists at `path` and `ET.parse` reads it as XML. */
  predicate IsXmlFile(fs: Node, path: Path) {
    Lookup(fs, path).Some? && Lookup(fs, path).value.File? && Lookup(fs, path).value.content.XmlDoc?
  }

  /** `ET.parse` then `_remove_namespace`; a directory or an unparsable
      file fails to parse, a parsed tree whose tags all strip is read as
      its namespace-free copy. */
  function LoadPom(fs: Node, path: Path): (r: Result<Element, AnalyzeError>)
    ensures r.Err? ==> r.error == NotParsed || r.error == NamespaceError
    ensures r == Err(NotParsed) <==> !IsXmlFile(fs, path)
    ensures r.Ok? <==> IsXmlFile(fs, path) && AllStrippable(Lookup(fs, path).value.content.root)
    ensures r.Ok? ==> RemoveNamespace(Lookup(fs, path).value.content.root) == Some(r.value)
  {
    match Lookup(fs, path)
    case Some(File(_, XmlDoc(root))) =>
      RemoveNamespaceSucceeds(root);
      (match RemoveNamespace(root)
       case Some(e) => Ok(e)
       case None => Err(NamespaceError))
    case _ => Err(NotParsed)
  }

  /** The coordinate text `f"{group}:{artifact}:{version}"`. */
  function Coordinate(g: string, a: string, v: string): string {
    g + ":" + a + ":" + v
  }

  /** The namespace-free root of the POM of a coordinate. */
  function ParsedPom(fs: Node, g: Option<string>, a: Option<string>, v: Option<string>): Result<Element, AnalyzeError> {
    if g.None? || a.None? || v.None? then Err(MissingCoordinate)
    else match GetPomPath(fs, g.value, a.value, v.value)
      case None => Err(PomNotFound(Coordinate(g.value, a.value, v.value)))
      case Some(path) => LoadPom(fs, path)
  }

  /** The error cases: a `None` coordinate, nothing at the POM path, and
      otherwise only parse or namespace failures. */
  lemma ParsedPomErrors(fs: Node, g: Option<string>, a: Option<string>, v: Option<string>)
    ensures ParsedPom(fs, g, a, v) == Err(MissingCoordinate) <==> g.None? || a.None? || v.None?
    ensures (ParsedPom(fs, g, a, v).Err? && ParsedPom(fs, g, a, v).error.PomNotFound?) <==>
      g.Some? && a.Some? && v.Some? && !Exists(fs, PomPath(g.value, a.value, v.value))
    ensures ParsedPom(fs, g, a, v).Err? && ParsedPom(fs, g, a, v).error.PomNotFound? ==>
      ParsedPom(fs, g, a, v).error.coordinate == Coordinate(g.value, a.value, v.value)
  {
  }

  /** The properties the POM itself declares. */
  function LocalProperties(root: Element): map<string, string> {
    PropertiesOf(FindDescendant(root, "properties"))
  }

  /** `root.find(".//parent")`, read as a parent reference. */
  function ParentRefOf(root: Element): Option<ParentRef> {
    match FindDescendant(root, "parent")
    case None => None
    case Some(p) => Some(ParentOf(p))
  }

  /** The project's own `dependencies` list: the child of the root. */
  function ProjectDependencies(root: Element): Option<Element> {
    FindChild(root, "dependencies")
  }

  /** The analysis of a read POM, given the table its parent contributes:
      the merged properties (the parent's win) and everything read with
      them. */
  function Build(g: string, a: string, v: string, root: Element, inherited: map<string, string>): (d: Descriptor)
    ensures forall k :: k in d.properties <==> k in LocalProperties(root) || k in inherited
    ensures forall k :: k in inherited ==> d.properties[k] == inherited[k]
  {
    var props := LocalProperties(root) + inherited;
    Descriptor(
      Coordinate(g, a, v),
      PomPath(g, a, v),
      DependenciesOf(ProjectDependencies(root), props),
      DependenciesOf(FindUnder(root, "dependencyManagement", "dependencies"), props),
      props,
      ParentRefOf(root),
      ModulesOf(FindDescendant(root, "modules")))
  }

  /** The properties, parent, dependency lists and modules of a coordinate's
      POM. `fuel` bounds the parent chain the way the interpreter's
      recursion limit does. */
  function Describe(fs: Node, g: Option<string>, a: Option<string>, v: Option<string>, fuel: nat): Result<Descriptor, AnalyzeError>
    decreases fuel, 2
  {
    match ParsedPom(fs, g, a, v)
    case Err(e) => Err(e)
    case Ok(root) => Ok(Build(g.value, a.value, v.value, root, Inherited(fs, root, fuel)))
  }

  /** What the parent contributes to a read POM: nothing without a parent
      element, its properties otherwise. */
  function Inherited(fs: Node, root: Element, fuel: nat): map<string, string>
    decreases fuel, 1
  {
    match ParentRefOf(root)
    case None => map[]
    case Some(p) => ParentProperties(fs, p, fuel)
  }

  /** `_get_parent_properties`: the parent's merged properties, or an empty
      table when the parent cannot be analysed. */
  function ParentProperties(fs: Node, p: ParentRef, fuel: nat): map<string, string>
    decreases fuel, 0
  {
    if fuel == 0 then map[]
    else match Describe(fs, p.groupId, p.artifactId, p.version, fuel - 1)
      case Ok(d) => d.properties
      case Err(_) => map[]
  }

  /** A readable POM's analysis is built from its root and what its
      parent contributes. */
  lemma DescribeRead(fs: Node, g: Option<string>, a: Option<string>, v: Option<string>, fuel: nat, root: Element)
    requires ParsedPom(fs, g, a, v) == Ok(root)
    ensures g.Some? && a.Some? && v.Some?
    ensures Describe(fs, g, a, v, fuel) == Ok(Build(g.value, a.value, v.value, root, Inherited(fs, root, fuel)))
  {
  }

  /** On a key both declare, the parent's (already merged) value wins over
      the child's own; keys only the child declares keep its value. */
  lemma ParentOverridesChild(fs: Node, g: Option<string>, a: Option<string>, v: Option<string>, fuel: nat,
                             root: Element, p: ParentRef, parent: Descriptor, k: string)
    requires ParsedPom(fs, g, a, v) == Ok(root) && ParentRefOf(root) == Some(p)
    requires fuel > 0 && Describe(fs, p.groupId, p.artifactId, p.version, fuel - 1) == Ok(parent)
    ensures Describe(fs, g, a, v, fuel).Ok?
    ensures var props := Describe(fs, g, a, v, fuel).value.properties;
      (k in parent.properties ==> k in props && props[k] == parent.properties[k])
      && (k !in parent.properties && k in LocalProperties(root) ==> k in props && props[k] == LocalProperties(root)[k])
      && (k in props <==> k in parent.properties || k in LocalProperties(root))
  {
    DescribeRead(fs, g, a, v, fuel, root);
    assert Inherited(fs, root, fuel) == parent.properties;
  }

  /** A missing or unreadable parent contributes nothing. */
  lemma UnreadableParentContributesNothing(fs: Node, g: Option<string>, a: Option<string>, v: Option<string>, fuel: nat)
    requires ParsedPom(fs, g, a, v).Ok?
    requires var p := ParentRefOf(ParsedPom(fs, g, a, v).value);
      p.None? || ParsedPom(fs, p.value.groupId, p.value.artifactId, p.value.version).Err?
    ensures Describe(fs, g, a, v, fuel).value.properties == LocalProperties(ParsedPom(fs, g, a, v).value)
  {
    var root := ParsedPom(fs, g, a, v).value;
    DescribeRead(fs, g, a, v, fuel, root);
    match ParentRefOf(root)
    case None =>
      NoParentInherits(fs, root, fuel);
    case Some(p) =>
      if fuel > 0 {
        DescribeUnread(fs, p.groupId, p.artifactId, p.version, fuel - 1, ParsedPom(fs, p.groupId, p.artifactId, p.version).error);
      }
      assert Inherited(fs, root, fuel) == ParentProperties(fs, p, fuel) == map[];
    assert LocalProperties(root) + map[] == LocalProperties(root);
  }

  /** The parent chain of a coordinate ends within `n` steps: its POM is
      unreadable, has no parent, or its parent's chain ends within `n - 1`. */
  ghost predicate ChainEndsWithin(fs: Node, g: Option<string>, a: Option<string>, v: Option<string>, n: nat)
    decreases n
  {
    match ParsedPom(fs, g, a, v)
    case Err(_) => true
    case Ok(root) =>
      match ParentRefOf(root)
      case None => true
      case Some(p) => n > 0 && ChainEndsWithin(fs, p.groupId, p.artifactId, p.version, n - 1)
  }

  /** When the parent chain ends (it has no cycle), the bound plays no part:
      any two bounds beyond the chain's length give the same analysis. */
  lemma {:induction false} FuelIndependent(fs: Node, g: Option<string>, a: Option<string>, v: Option<string>, n: nat, f1: nat, f2: nat)
    requires ChainEndsWithin(fs, g, a, v, n) && n <= f1 && n <= f2
    ensures Describe(fs, g, a, v, f1) == Describe(fs, g, a, v, f2)
    decreases n
  {
    match ParsedPom(fs, g, a, v)
    case Err(e) =>
      DescribeUnread(fs, g, a, v, f1, e);
      DescribeUnread(fs, g, a, v, f2, e);
    case Ok(root) =>
      match ParentRefOf(root)
      case None =>
        NoParentInherits(fs, root, f1);
        NoParentInherits(fs, root, f2);
        DescribeRead(fs, g, a, v, f1, root);
        DescribeRead(fs, g, a, v, f2, root);
      case Some(p) =>
        assert n > 0;
        var e1, e2 := f1 - 1, f2 - 1;
        FuelIndependent(fs, p.groupId, p.artifactId, p.version, n - 1, e1, e2);
        SameParentProperties(fs, root, p, e1, e2);
        DescribeRead(fs, g, a, v, f1, root);
        DescribeRead(fs, g, a, v, f2, root);
  }

  lemma DescribeUnread(fs: Node, g: Option<string>, a: Option<string>, v: Option<string>, fuel: nat, e: AnalyzeError)
    requires ParsedPom(fs, g, a, v) == Err(e)
    ensures Describe(fs, g, a, v, fuel) == Err(e)
  {
  }

  lemma NoParentInherits(fs: Node, root: Element, fuel: nat)
    requires ParentRefOf(root).None?
    ensures Inherited(fs, root, fuel) == map[]
  {
  }

  lemma SameParentProperties(fs: Node, root: Element, p: ParentRef, e1: nat, e2: nat)
    requires ParentRefOf(root) == Some(p)
    requires Describe(fs, p.groupId, p.artifactId, p.version, e1) == Describe(fs, p.groupId, p.artifactId, p.version, e2)
    ensures Inherited(fs, root, e1 + 1) == Inherited(fs, root, e2 + 1)
  {
  }

  // ---------------------------------------------------------------------
  // From a POM path back to a coordinate

  /** `_extract_artifact_from_pom_path` on the parts of a path relative to
      the repository root: (group, artifact, version). */
  function ArtifactFromPomPath(parts: Path): (r: Option<(string, string, string)>)
    ensures r.Some? <==> |parts| >= 3
    ensures r.Some? ==> r.value.1 == parts[|parts| - 3] && r.value.2 == parts[|parts| - 2]
  {
    if |parts| >= 3 then
      Some((Join(parts[..|parts| - 3], '.'), parts[|parts| - 3], parts[|parts| - 2]))
    else None
  }

  /** A group id whose dot-separated pieces are all usable directory names. */
  predicate GroupOfParts(g: string) {
    '/' !in g && forall i :: 0 <= i < |Split(g, '.')| ==> Split(g, '.')[i] != [] && Split(g, '.')[i] != "."
  }

  /** The path of a coordinate leads back to the coordinate. */
  lemma PomPathRoundTrip(g: string, a: string, v: string)
    requires GroupOfParts(g) && ValidPart(a) && ValidPart(v)
    ensures ArtifactFromPomPath(PomPath(g, a, v)) == Some((g, a, v))
  {
    var file := a + "-" + v + ".pom";
    FileNameIsPart(a, v);
    SegmentsOfPart(file);
    VersionFileRoundTrip(g, a, v, file);
  }

  /** Any file in the directory of a version gives back that version's
      coordinate. */
  lemma VersionFileRoundTrip(g: string, a: string, v: string, file: string)
    requires GroupOfParts(g) && ValidPart(a) && ValidPart(v)
    ensures ArtifactFromPomPath(Segments(ReplaceChar(g, '.', '/')) + Segments(a) + Segments(v) + [file]) == Some((g, a, v))
  {
    var pieces := Split(g, '.');
    assert Segments(ReplaceChar(g, '.', '/')) + Segments(a) + Segments(v) + [file] == pieces + [a] + [v] + [file] by {
      GroupSegments(g);
      SegmentsOfPart(a);
      SegmentsOfPart(v);
    }
    FileUnderVersion(pieces, a, v, file);
    JoinSplit(g, '.');
  }

  lemma FileUnderVersion(pieces: seq<string>, a: string, v: string, file: string)
    ensures ArtifactFromPomPath(pieces + [a] + [v] + [file]) == Some((Join(pieces, '.'), a, v))
  {
    var p := pieces + [a] + [v] + [file];
    assert p[..|pieces|] == pieces;
  }

  /** The group's directories are its dot-separated pieces. */
  lemma GroupSegments(g: string)
    requires GroupOfParts(g)
    ensures Segments(ReplaceChar(g, '.', '/')) == Split(g, '.')
  {
    SplitReplaced(g, '.', '/');
    KeepValidParts(Split(g, '.'));
  }

  lemma FileNameIsPart(a: string, v: string)
    requires ValidPart(a) && ValidPart(v)
    ensures ValidPart(a + "-" + v + ".pom")
  {
    var file := a + "-" + v + ".pom";
    forall i | 0 <= i < |file| ensures file[i] != '/' {
      if i < |a| { assert file[i] == a[i]; }
      else if i > |a| && i < |a| + 1 + |v| { assert file[i] == v[i - |a| - 1]; }
    }
    assert |file| > 1;
  }

  // ---------------------------------------------------------------------
  // The direct-dependency lookup as written

  /** `root.find(".//dependencies")`: the first `dependencies` element
      anywhere below the root. */
  function AsWrittenDependencies(root: Element): Option<Element> {
    FindDescendant(root, "dependencies")
  }

  /** In a POM whose `dependencyManagement` section comes before the
      project's own `dependencies` (the order the POM reference uses), the
      lookup as written reads the managed list as the direct dependencies. */
  lemma ManagedListShadowsDirect(managed: Element, direct: Element)
    requires managed.tag == "dependencies" && direct.tag == "dependencies" && managed != direct
    ensures var root := Element("project", None, [Element("dependencyManagement", None, [managed]), direct]);
      AsWrittenDependencies(root) == Some(managed) && ProjectDependencies(root) == Some(direct)
      && AsWrittenDependencies(root) != ProjectDependencies(root)
  {
    var dm := Element("dependencyManagement", None, [managed]);
    assert "dependencyManagement" != "dependencies" by { assert |"dependencyManagement"| != |"dependencies"|; }
    var root := Element("project", None, [dm, direct]);
    assert Forest([managed]) == [managed] + Forest(managed.children) + Forest([]);
    assert Forest([dm, direct]) == [dm] + Forest([managed]) + Forest([direct]);
    assert Descendants(root) == [dm, managed] + Forest(managed.children) + Forest([direct]);
    assert FirstTagged(Descendants(root), "dependencies") == Some(managed);
    assert FirstTagged(root.children, "dependencies") == Some(direct);
  }

  /** The project's own list is found wherever the root's other children
      sit, as long as it is the first child so named. */
  lemma {:induction false} ProjectDependenciesFound(root: Element, pre: seq<Element>, d: Element, post: seq<Element>)
    requires root.children == pre + [d] + post && d.tag == "dependencies"
    requires forall i :: 0 <= i < |pre| ==> pre[i].tag != "dependencies"
    ensures ProjectDependencies(root) == Some(d)
  {
    FirstTaggedAfter(pre, d, post, "dependencies");
  }

  lemma {:induction false} FirstTaggedAfter(pre: seq<Element>, d: Element, post: seq<Element>, tag: string)
    requires d.tag == tag && forall i :: 0 <= i < |pre| ==> pre[i].tag != tag
    ensures FirstTagged(pre + [d] + post, tag) == Some(d)
  {
    if pre != [] {
      assert (pre + [d] + post)[1..] == pre[1..] + [d] + post;
      FirstTaggedAfter(pre[1..], d, post, tag);
    }
  }
}
