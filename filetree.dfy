/** The local repository directory as a tree of named nodes; a child
    sequence is in directory-iteration order. Paths are the parts of a path
    relative to the repository root, as `pathlib` keeps them. */
module FileTree {
  import opened Wrappers
  import opened Strings
  import Xml

  /** What `ET.parse` makes of a file: an element tree, or a parse error. */
  datatype Content = XmlDoc(root: Xml.Element) | Opaque

  datatype Node = File(name: string, content: Content) | Dir(name: string, children: seq<Node>)

  type Path = seq<string>

  /** A path component as `pathlib` keeps it. */
  predicate ValidPart(p: string) {
    p != [] && p != "." && '/' !in p
  }

  function KeepParts(ps: seq<string>): (r: Path)
    ensures forall i :: 0 <= i < |r| ==> r[i] != [] && r[i] != "." && r[i] in ps
  {
    if ps == [] then []
    else if ps[0] == [] || ps[0] == "." then KeepParts(ps[1..])
    else [ps[0]] + KeepParts(ps[1..])
  }

  /** The parts `pathlib` makes of a relative path string: split at '/',
      empty and "." components dropped. */
  function Segments(s: string): (r: Path)
    ensures forall i :: 0 <= i < |r| ==> ValidPart(r[i])
  {
    var r := KeepParts(Split(s, '/'));
    assert forall i :: 0 <= i < |r| ==> r[i] in Split(s, '/');
    r
  }

  lemma {:induction false} KeepValidParts(ps: seq<string>)
    requires forall i :: 0 <= i < |ps| ==> ps[i] != [] && ps[i] != "."
    ensures KeepParts(ps) == ps
  {
    if ps != [] { KeepValidParts(ps[1..]); }
  }

  /** A single valid component is its own path. */
  lemma SegmentsOfPart(p: string)
    requires ValidPart(p)
    ensures Segments(p) == [p]
  {
    SplitNoSep(p, '/');
    KeepValidParts([p]);
  }

  /** The first child with this name (names are unique in a directory). */
  function ChildNamed(cs: seq<Node>, name: string): (r: Option<Node>)
    ensures r.Some? ==> r.value in cs && r.value.name == name
    ensures r.None? ==> forall i :: 0 <= i < |cs| ==> cs[i].name != name
  {
    if cs == [] then None
    else if cs[0].name == name then Some(cs[0])
    else ChildNamed(cs[1..], name)
  }

  /** The node at `path` below `n`, if there is one. */
  function Lookup(n: Node, path: Path): Option<Node>
    decreases path
  {
    if path == [] then Some(n)
    else match n
      case File(_, _) => None
      case Dir(_, cs) =>
        match ChildNamed(cs, path[0])
        case None => None
        case Some(c) => Lookup(c, path[1..])
  }

  /** `path.exists()`. */
  predicate Exists(root: Node, path: Path) {
    Lookup(root, path).Some?
  }

  /** The children of `cs` whose names end with `suffix` (`glob("*" + suffix)`),
      files and directories alike. */
  function NamesEndingWith(cs: seq<Node>, suffix: string): (r: seq<string>)
    ensures forall i :: 0 <= i < |r| ==> EndsWith(r[i], suffix)
  {
    if cs == [] then []
    else if EndsWith(cs[0].name, suffix) then [cs[0].name] + NamesEndingWith(cs[1..], suffix)
    else NamesEndingWith(cs[1..], suffix)
  }

  /** The first name listed is that of the first entry with the suffix:
      no entry before it has the suffix. */
  lemma {:induction false} FirstEndingWith(cs: seq<Node>, suffix: string)
    requires NamesEndingWith(cs, suffix) != []
    ensures exists i ::
      && 0 <= i < |cs|
      && cs[i].name == NamesEndingWith(cs, suffix)[0]
      && (forall k :: 0 <= k < i ==> !EndsWith(cs[k].name, suffix))
  {
    if !EndsWith(cs[0].name, suffix) {
      FirstEndingWith(cs[1..], suffix);
      var i :|
        && 0 <= i < |cs[1..]|
        && cs[1..][i].name == NamesEndingWith(cs[1..], suffix)[0]
        && (forall k :: 0 <= k < i ==> !EndsWith(cs[1..][k].name, suffix));
      assert cs[i + 1] == cs[1..][i];
      forall k | 0 <= k < i + 1 ensures !EndsWith(cs[k].name, suffix) {
        if k > 0 {
          assert cs[k] == cs[1..][k - 1];
        }
      }
    } else {
      assert cs[0].name == NamesEndingWith(cs, suffix)[0];
    }
  }

  /** The entries of a directory, or none when `n` is not a directory. */
  function Entries(n: Node): seq<Node> {
    if n.Dir? then n.children else []
  }

  /** `rglob("*" + suffix)` below the directory `n` found at `at`: for each
      directory, parent first, its matching entries. */
  function Scan(n: Node, at: Path, suffix: string): seq<(Path, Node)>
    decreases n, 1
  {
    match n
    case File(_, _) => []
    case Dir(_, cs) => Matching(cs, at, suffix) + ScanAll(cs, at, suffix)
  }

  function Matching(cs: seq<Node>, at: Path, suffix: string): (r: seq<(Path, Node)>)
    ensures forall i :: 0 <= i < |r| ==> |r[i].0| == |at| + 1 && EndsWith(r[i].1.name, suffix)
  {
    if cs == [] then []
    else if EndsWith(cs[0].name, suffix) then [(at + [cs[0].name], cs[0])] + Matching(cs[1..], at, suffix)
    else Matching(cs[1..], at, suffix)
  }

  function ScanAll(cs: seq<Node>, at: Path, suffix: string): seq<(Path, Node)>
    decreases cs, 0
  {
    if cs == [] then []
    else Scan(cs[0], at + [cs[0].name], suffix) + ScanAll(cs[1..], at, suffix)
  }
}
