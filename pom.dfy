/** Reading one POM element tree: `${name}` substitution
    (`_resolve_properties`), dependency entries (`_extract_dependency_info`),
    properties, modules, the parent reference, and `_is_excluded`. */
module Pom {
  import opened Wrappers
  import opened Strings
  import opened Xml

  datatype Exclusion = Exclusion(groupId: string, artifactId: string)

  /** One dependency entry, after substitution. `exclusions` is `None` when
      the entry has no `exclusions` element at all. */
  datatype Dependency = Dependency(
    groupId: string,
    artifactId: string,
    version: Option<string>,
    scope: string,
    packaging: string,
    optional: bool,
    classifier: Option<string>,
    exclusions: Option<seq<Exclusion>>)

  /** The `parent` element's coordinates, each possibly missing. */
  datatype ParentRef = ParentRef(groupId: Option<string>, artifactId: Option<string>, version: Option<string>)

  /** Python truthiness of an optional string. */
  predicate Truthy(s: Option<string>) {
    s.Some? && s.value != []
  }

  /** `text or default`. */
  function OrDefault(s: Option<string>, default: string): string {
    if Truthy(s) then s.value else default
  }

  // ---------------------------------------------------------------------
  // Property substitution

  /** The name of the placeholder `${name}` that `s` starts with: what the
      pattern `\$\{([^}]+)\}` matches at the first position. */
  function Placeholder(s: string): (r: Option<string>)
    ensures r.Some? ==> |r.value| > 0 && '}' !in r.value && "${" + r.value + "}" <= s
  {
    if |s| >= 2 && s[..2] == "${" && '}' in s[2..] then
      var (name, rest) := SplitOnce(s[2..], '}');
      assert s == "${" + name + "}" + rest by { assert s == s[..2] + s[2..]; }
      if name == [] then None else Some(name)
    else None
  }

  /** `re.sub` of every placeholder, left to right, by its property value or
      by itself when there is no such property. */
  function Substitute(s: string, props: map<string, string>): string
    decreases |s|
  {
    if s == [] then []
    else match Placeholder(s)
      case Some(name) =>
        (if name in props then props[name] else "${" + name + "}") + Substitute(s[|name| + 3..], props)
      case None => [s[0]] + Substitute(s[1..], props)
  }

  /** `_resolve_properties(value, properties)`. */
  function ResolveProperties(value: string, props: map<string, string>): string {
    if value == [] then value else Substitute(value, props)
  }

  /** Text without '$' is copied unchanged in front of the rest. */
  lemma {:induction false} SubstituteLiteral(lit: string, s: string, props: map<string, string>)
    requires forall i :: 0 <= i < |lit| ==> lit[i] != '$'
    ensures Substitute(lit + s, props) == lit + Substitute(s, props)
  {
    if lit == [] {
      assert lit + s == s;
    } else {
      var t := lit + s;
      assert t[0] == lit[0] && t[1..] == lit[1..] + s;
      SubstituteOther(t, props);
      SubstituteLiteral(lit[1..], s, props);
      var rest := Substitute(s, props);
      calc {
        Substitute(t, props);
        [lit[0]] + (lit[1..] + rest);
        ([lit[0]] + lit[1..]) + rest;
        { assert [lit[0]] + lit[1..] == lit; }
        lit + rest;
      }
    }
  }

  lemma SubstituteOther(t: string, props: map<string, string>)
    requires t != [] && t[0] != '$'
    ensures Substitute(t, props) == [t[0]] + Substitute(t[1..], props)
  {
  }

  /** A value without '$' is not changed by substitution. */
  lemma ResolveLiteral(s: string, props: map<string, string>)
    requires forall i :: 0 <= i < |s| ==> s[i] != '$'
    ensures ResolveProperties(s, props) == s
  {
    if s != [] {
      SubstituteLiteral(s, [], props);
      assert s + [] == s;
    }
  }

  /** A placeholder is replaced by the property's value exactly as it is
      stored, so a value holding `${...}` is not expanded again; an unknown
      name leaves the placeholder in place. */
  lemma PlaceholderReplaced(name: string, rest: string, props: map<string, string>)
    requires |name| > 0 && '}' !in name
    ensures ResolveProperties("${" + name + "}" + rest, props)
      == (if name in props then props[name] else "${" + name + "}") + ResolveProperties(rest, props)
  {
    var s := "${" + name + "}" + rest;
    assert s[..2] == "${";
    assert s[2..] == name + ['}'] + rest;
    SplitOnceFirst(name, '}', rest);
    assert Placeholder(s) == Some(name);
    assert s[|name| + 3..] == rest;
  }

  /** With no properties every string is unchanged. */
  lemma ResolveWithoutProperties(s: string)
    ensures ResolveProperties(s, map[]) == s
  {
    SubstituteNothing(s);
  }

  lemma {:induction false} SubstituteNothing(s: string)
    ensures Substitute(s, map[]) == s
    decreases |s|
  {
    if s == [] {
    } else if Placeholder(s).Some? {
      SubstituteNothing(s[|Placeholder(s).value| + 3..]);
      NothingAfterPlaceholder(s);
    } else {
      SubstituteNothing(s[1..]);
      NothingAfterChar(s);
    }
  }

  lemma NothingAfterPlaceholder(s: string)
    requires Placeholder(s).Some?
    requires var n := |Placeholder(s).value| + 3; Substitute(s[n..], map[]) == s[n..]
    ensures Substitute(s, map[]) == s
  {
    var n := |Placeholder(s).value| + 3;
    PlaceholderKept(s, n);
    PrefixSplit(s, n);
  }

  lemma PlaceholderKept(s: string, n: nat)
    requires Placeholder(s).Some? && n == |Placeholder(s).value| + 3
    ensures n <= |s| && Substitute(s, map[]) == s[..n] + Substitute(s[n..], map[])
  {
    SubstitutePlaceholder(s, map[]);
  }

  lemma PrefixSplit(s: string, n: nat)
    requires n <= |s|
    ensures s[..n] + s[n..] == s
  {
  }

  lemma NothingAfterChar(s: string)
    requires s != [] && Placeholder(s).None? && Substitute(s[1..], map[]) == s[1..]
    ensures Substitute(s, map[]) == s
  {
    SubstituteNone(s, map[]);
    assert [s[0]] + s[1..] == s;
  }

  lemma SubstitutePlaceholder(s: string, props: map<string, string>)
    requires Placeholder(s).Some?
    ensures var name := Placeholder(s).value;
      Substitute(s, props) == (if name in props then props[name] else s[..|name| + 3]) + Substitute(s[|name| + 3..], props)
  {
  }

  lemma SubstituteNone(s: string, props: map<string, string>)
    requires s != [] && Placeholder(s).None?
    ensures Substitute(s, props) == [s[0]] + Substitute(s[1..], props)
  {
  }

  /** A value that is one placeholder becomes the property's value, or
      stays as written when the property is unknown. */
  lemma WholePlaceholder(name: string, props: map<string, string>)
    requires |name| > 0 && '}' !in name
    ensures ResolveProperties("${" + name + "}", props) == (if name in props then props[name] else "${" + name + "}")
  {
    PlaceholderReplaced(name, "", props);
    assert "${" + name + "}" + "" == "${" + name + "}";
  }

  // ---------------------------------------------------------------------
  // Dependency entries

  function ExclusionsIn(xs: seq<Element>): (r: seq<Exclusion>)
    ensures forall i :: 0 <= i < |r| ==> r[i].groupId != [] && r[i].artifactId != []
  {
    if xs == [] then []
    else
      var init := ExclusionsIn(xs[..|xs| - 1]);
      var g := ChildText(xs[|xs| - 1], "groupId");
      var a := ChildText(xs[|xs| - 1], "artifactId");
      if Truthy(g) && Truthy(a) then init + [Exclusion(g.value, a.value)] else init
  }

  /** The `exclusion` entries of an `exclusions` element that name both a
      group and an artifact, in order. */
  /** The `exclusion` element `e` names `x`: both texts present, non-empty
      and equal to `x`'s. */
  predicate NamesExclusion(e: Element, x: Exclusion) {
    ChildText(e, "groupId") == Some(x.groupId) && ChildText(e, "artifactId") == Some(x.artifactId)
    && x.groupId != [] && x.artifactId != []
  }

  /** An exclusion is kept exactly when some `exclusion` element names it
      with a non-empty group and artifact. */
  lemma {:induction false} ExclusionsInExactly(xs: seq<Element>, x: Exclusion)
    ensures x in ExclusionsIn(xs) <==> exists i :: 0 <= i < |xs| && NamesExclusion(xs[i], x)
  {
    if xs != [] {
      var init := xs[..|xs| - 1];
      ExclusionsInExactly(init, x);
      ExclusionsStep(xs, x);
      if exists i :: 0 <= i < |xs| && NamesExclusion(xs[i], x) {
        var i :| 0 <= i < |xs| && NamesExclusion(xs[i], x);
        if i < |xs| - 1 {
          assert init[i] == xs[i];
          assert x in ExclusionsIn(init);
        }
      }
      if exists i :: 0 <= i < |init| && NamesExclusion(init[i], x) {
        var i :| 0 <= i < |init| && NamesExclusion(init[i], x);
        assert xs[i] == init[i];
        assert NamesExclusion(xs[i], x);
      }
    }
  }

  lemma ExclusionsStep(xs: seq<Element>, x: Exclusion)
    requires xs != []
    ensures x in ExclusionsIn(xs) <==> x in ExclusionsIn(xs[..|xs| - 1]) || NamesExclusion(xs[|xs| - 1], x)
  {
  }

  /** The exclusions of two runs of elements are those of the first run
      followed by those of the second, so document order is kept. */
  lemma {:induction false} ExclusionsAppend(xs: seq<Element>, ys: seq<Element>)
    ensures ExclusionsIn(xs + ys) == ExclusionsIn(xs) + ExclusionsIn(ys)
    decreases |ys|
  {
    if ys == [] {
      assert xs + ys == xs;
    } else {
      var n := |ys| - 1;
      assert (xs + ys)[..|xs + ys| - 1] == xs + ys[..n];
      ExclusionsAppend(xs, ys[..n]);
    }
  }

  function ExclusionsOf(e: Element): seq<Exclusion> {
    ExclusionsIn(FindAll(e, "exclusion"))
  }

  /** `_extract_dependency_info(dep, properties)`. */
  function ExtractDependency(dep: Element, props: map<string, string>): (r: Option<Dependency>)
    ensures r.None? <==> !Truthy(ChildText(dep, "groupId")) || !Truthy(ChildText(dep, "artifactId"))
    ensures r.Some? ==> (r.value.scope == "compile" <==> !Truthy(ChildText(dep, "scope")) || ChildText(dep, "scope") == Some("compile"))
    ensures r.Some? ==> (r.value.packaging == "jar" <==> !Truthy(ChildText(dep, "type")) || ChildText(dep, "type") == Some("jar"))
    ensures r.Some? ==> (r.value.optional <==> ChildText(dep, "optional") == Some("true"))
    ensures r.Some? ==> r.value.version.Some? == ChildText(dep, "version").Some?
  {
    var g := ChildText(dep, "groupId");
    var a := ChildText(dep, "artifactId");
    var v := ChildText(dep, "version");
    if !Truthy(g) || !Truthy(a) then None
    else
      Some(Dependency(
        ResolveProperties(g.value, props),
        ResolveProperties(a.value, props),
        if Truthy(v) then Some(ResolveProperties(v.value, props)) else v,
        OrDefault(ChildText(dep, "scope"), "compile"),
        OrDefault(ChildText(dep, "type"), "jar"),
        ChildText(dep, "optional") == Some("true"),
        ChildText(dep, "classifier"),
        match FindChild(dep, "exclusions")
        case None => None
        case Some(x) => Some(ExclusionsOf(x))))
  }

  /** The fields of an extracted entry: the coordinates resolved against
      the table (a missing or empty version kept as it is), the scope and
      type as written when present, the classifier as written, and the
      exclusions when the entry has an `exclusions` element. */
  lemma ExtractedFields(dep: Element, props: map<string, string>)
    ensures ExtractDependency(dep, props).Some? ==> var d := ExtractDependency(dep, props).value;
      && d.groupId == ResolveProperties(ChildText(dep, "groupId").value, props)
      && d.artifactId == ResolveProperties(ChildText(dep, "artifactId").value, props)
      && (Truthy(ChildText(dep, "version")) ==> d.version == Some(ResolveProperties(ChildText(dep, "version").value, props)))
      && (!Truthy(ChildText(dep, "version")) ==> d.version == ChildText(dep, "version"))
      && (Truthy(ChildText(dep, "scope")) ==> d.scope == ChildText(dep, "scope").value)
      && (Truthy(ChildText(dep, "type")) ==> d.packaging == ChildText(dep, "type").value)
      && d.classifier == ChildText(dep, "classifier")
      && (FindChild(dep, "exclusions").None? ==> d.exclusions.None?)
      && (FindChild(dep, "exclusions").Some? ==> d.exclusions == Some(ExclusionsOf(FindChild(dep, "exclusions").value)))
  {
  }

  /** Only the group, artifact and version depend on the property table:
      two tables give the same scope, type, optional flag, classifier and
      exclusions. */
  lemma SubstitutionOnlyInCoordinates(dep: Element, p1: map<string, string>, p2: map<string, string>)
    ensures ExtractDependency(dep, p1).Some? == ExtractDependency(dep, p2).Some?
    ensures ExtractDependency(dep, p1).Some? ==>
      var d1, d2 := ExtractDependency(dep, p1).value, ExtractDependency(dep, p2).value;
      d1.(groupId := d2.groupId, artifactId := d2.artifactId, version := d2.version) == d2
  {
  }

  /** With an empty table the coordinates are the raw texts. */
  lemma ExtractWithoutProperties(dep: Element)
    ensures ExtractDependency(dep, map[]).Some? ==>
      ExtractDependency(dep, map[]).value.groupId == ChildText(dep, "groupId").value
    ensures ExtractDependency(dep, map[]).Some? ==>
      ExtractDependency(dep, map[]).value.artifactId == ChildText(dep, "artifactId").value
    ensures ExtractDependency(dep, map[]).Some? ==>
      ExtractDependency(dep, map[]).value.version == ChildText(dep, "version")
  {
    if ExtractDependency(dep, map[]).Some? {
      ResolveWithoutProperties(ChildText(dep, "groupId").value);
      ResolveWithoutProperties(ChildText(dep, "artifactId").value);
      if Truthy(ChildText(dep, "version")) {
        ResolveWithoutProperties(ChildText(dep, "version").value);
      }
    }
  }

  /** The dependencies extracted from a list of `dependency` elements;
      entries without group or artifact are dropped. */
  function DependenciesIn(ds: seq<Element>, props: map<string, string>): (r: seq<Dependency>)
    ensures |r| <= |ds|
  {
    if ds == [] then []
    else
      var init := DependenciesIn(ds[..|ds| - 1], props);
      match ExtractDependency(ds[|ds| - 1], props)
      case None => init
      case Some(d) => init + [d]
  }

  /** The entries of two lists of elements, one after the other, keep that
      order. */
  lemma {:induction false} DependenciesAppend(xs: seq<Element>, ys: seq<Element>, props: map<string, string>)
    ensures DependenciesIn(xs + ys, props) == DependenciesIn(xs, props) + DependenciesIn(ys, props)
    decreases |ys|
  {
    if ys == [] {
      assert xs + ys == xs;
    } else {
      var n := |ys| - 1;
      assert (xs + ys)[..|xs + ys| - 1] == xs + ys[..n];
      DependenciesAppend(xs, ys[..n], props);
    }
  }

  /** An entry is listed exactly when some `dependency` element extracts to
      it. */
  lemma DependenciesInExactly(ds: seq<Element>, props: map<string, string>, d: Dependency)
    ensures d in DependenciesIn(ds, props) <==> exists i :: 0 <= i < |ds| && ExtractDependency(ds[i], props) == Some(d)
  {
    if d in DependenciesIn(ds, props) {
      DependencyFromElement(ds, props, d);
    }
    if exists i :: 0 <= i < |ds| && ExtractDependency(ds[i], props) == Some(d) {
      var i :| 0 <= i < |ds| && ExtractDependency(ds[i], props) == Some(d);
      ElementGivesDependency(ds, props, i);
    }
  }

  lemma {:induction false} DependencyFromElement(ds: seq<Element>, props: map<string, string>, d: Dependency)
    requires d in DependenciesIn(ds, props)
    ensures exists i :: 0 <= i < |ds| && ExtractDependency(ds[i], props) == Some(d)
  {
    var n := |ds| - 1;
    var init := ds[..n];
    if d in DependenciesIn(init, props) {
      DependencyFromElement(init, props, d);
      var i :| 0 <= i < |init| && ExtractDependency(init[i], props) == Some(d);
      assert ds[i] == init[i];
    } else {
      assert ExtractDependency(ds[n], props) == Some(d);
    }
  }

  lemma {:induction false} ElementGivesDependency(ds: seq<Element>, props: map<string, string>, i: nat)
    requires i < |ds| && ExtractDependency(ds[i], props).Some?
    ensures ExtractDependency(ds[i], props).value in DependenciesIn(ds, props)
  {
    var n := |ds| - 1;
    var d := ExtractDependency(ds[i], props).value;
    if i < n {
      var init := ds[..n];
      assert init[i] == ds[i];
      ElementGivesDependency(init, props, i);
      assert d in DependenciesIn(init, props);
      DependenciesStep(ds, props, d);
    } else {
      assert i == |ds| - 1;
      DependenciesLast(ds, props);
      assert DependenciesIn(ds, props) == DependenciesIn(ds[..n], props) + [d];
    }
  }

  /** The last element's entry, when it has one, closes the list. */
  lemma DependenciesLast(ds: seq<Element>, props: map<string, string>)
    requires ds != [] && ExtractDependency(ds[|ds| - 1], props).Some?
    ensures DependenciesIn(ds, props) == DependenciesIn(ds[..|ds| - 1], props) + [ExtractDependency(ds[|ds| - 1], props).value]
  {
  }

  /** The entries of all the elements extend those of all but the last. */
  lemma DependenciesStep(ds: seq<Element>, props: map<string, string>, d: Dependency)
    requires ds != [] && d in DependenciesIn(ds[..|ds| - 1], props)
    ensures d in DependenciesIn(ds, props)
  {
  }

  /** The dependencies of a `dependencies` element, if there is one. */
  function DependenciesOf(container: Option<Element>, props: map<string, string>): seq<Dependency> {
    match container
    case None => []
    case Some(c) => DependenciesIn(FindAll(c, "dependency"), props)
  }

  /** `_is_excluded(dependency, exclusions)`: group and artifact match some
      exclusion; the version plays no part. */
  predicate IsExcluded(d: Dependency, exclusions: seq<Exclusion>) {
    exists i :: 0 <= i < |exclusions| && exclusions[i].groupId == d.groupId && exclusions[i].artifactId == d.artifactId
  }

  /** `dep.get('exclusions', [])`. */
  function ExclusionList(d: Dependency): seq<Exclusion> {
    if d.exclusions.Some? then d.exclusions.value else []
  }

  /** The text of an optional version as an f-string shows it. */
  function VersionText(v: Option<string>): string {
    if v.Some? then v.value else "None"
  }

  /** `f"{groupId}:{artifactId}:{dep.get('version', 'unknown')}"`: every
      extracted entry has a version key, so a missing version shows as
      `None`, never as `unknown`. */
  function Key(d: Dependency): string {
    d.groupId + ":" + d.artifactId + ":" + VersionText(d.version)
  }

  // ---------------------------------------------------------------------
  // Properties, parent and modules

  function PropertiesIn(ps: seq<Element>): (m: map<string, string>)
    ensures forall k :: k in m <==> exists i :: 0 <= i < |ps| && ps[i].tag == k
  {
    if ps == [] then map[]
    else
      var last := ps[|ps| - 1];
      var m := PropertiesIn(ps[..|ps| - 1]);
      assert forall i :: 0 <= i < |ps| - 1 ==> ps[..|ps| - 1][i] == ps[i];
      m[last.tag := OrDefault(last.text, "")]
  }

  /** The table of a `properties` element: child tag to its text (`""` when
      it has none); a repeated tag keeps its last text. */
  function PropertiesOf(container: Option<Element>): map<string, string> {
    match container
    case None => map[]
    case Some(c) => PropertiesIn(c.children)
  }

  /** A repeated property keeps the text of its last occurrence. */
  lemma {:induction false} LastPropertyWins(ps: seq<Element>, i: nat)
    requires i < |ps|
    requires forall j :: i < j < |ps| ==> ps[j].tag != ps[i].tag
    ensures PropertiesIn(ps)[ps[i].tag] == OrDefault(ps[i].text, "")
  {
    if i < |ps| - 1 {
      var init := ps[..|ps| - 1];
      assert init[i] == ps[i];
      LastPropertyWins(init, i);
    }
  }

  /** The parent reference read from a `parent` element. */
  function ParentOf(p: Element): ParentRef {
    ParentRef(ChildText(p, "groupId"), ChildText(p, "artifactId"), ChildText(p, "version"))
  }

  function ModulesIn(ms: seq<Element>): (r: seq<string>)
    ensures forall i :: 0 <= i < |r| ==> r[i] != []
  {
    if ms == [] then []
    else
      var init := ModulesIn(ms[..|ms| - 1]);
      var t := ms[|ms| - 1].text;
      if Truthy(t) then init + [t.value] else init
  }

  /** The non-empty `module` texts of a `modules` element, in order. */
  /** A module name is listed exactly when some `module` element has it as
      its non-empty text. */
  lemma {:induction false} ModulesInExactly(ms: seq<Element>, m: string)
    ensures m in ModulesIn(ms) <==> exists i :: 0 <= i < |ms| && ms[i].text == Some(m) && m != []
  {
    if ms != [] {
      var init := ms[..|ms| - 1];
      ModulesInExactly(init, m);
      if exists i :: 0 <= i < |ms| && ms[i].text == Some(m) && m != [] {
        var i :| 0 <= i < |ms| && ms[i].text == Some(m) && m != [];
        if i < |ms| - 1 {
          assert init[i] == ms[i];
        }
      }
      if exists i :: 0 <= i < |init| && init[i].text == Some(m) && m != [] {
        var i :| 0 <= i < |init| && init[i].text == Some(m) && m != [];
        assert ms[i] == init[i];
      }
    }
  }

  /** The modules of two runs of elements are those of the first run
      followed by those of the second, so document order is kept. */
  lemma {:induction false} ModulesAppend(xs: seq<Element>, ys: seq<Element>)
    ensures ModulesIn(xs + ys) == ModulesIn(xs) + ModulesIn(ys)
    decreases |ys|
  {
    if ys == [] {
      assert xs + ys == xs;
    } else {
      var n := |ys| - 1;
      assert (xs + ys)[..|xs + ys| - 1] == xs + ys[..n];
      ModulesAppend(xs, ys[..n]);
    }
  }

  function ModulesOf(container: Option<Element>): seq<string> {
    match container
    case None => []
    case Some(c) => ModulesIn(FindAll(c, "module"))
  }
}
