/** The element tree that `xml.etree.ElementTree` builds from a POM, and the
    lookups the source makes in it: `find`, `findall`, `.//` paths, and the
    namespace stripping of `_remove_namespace`. */
module Xml {
  import opened Wrappers
  import opened Strings

  /** One element: its tag, its text (`None` when it has none) and its
      children in document order. */
  datatype Element = Element(tag: string, text: Option<string>, children: seq<Element>)

  /** The first element of `cs` with this tag. */
  function FirstTagged(cs: seq<Element>, tag: string): (r: Option<Element>)
    ensures r.Some? ==> r.value in cs && r.value.tag == tag
    ensures r.None? <==> forall i :: 0 <= i < |cs| ==> cs[i].tag != tag
  {
    if cs == [] then None
    else if cs[0].tag == tag then Some(cs[0])
    else FirstTagged(cs[1..], tag)
  }

  /** The elements of `cs` with this tag, in order. */
  function AllTagged(cs: seq<Element>, tag: string): (r: seq<Element>)
    ensures forall i :: 0 <= i < |r| ==> r[i].tag == tag && r[i] in cs
    ensures forall i :: 0 <= i < |cs| && cs[i].tag == tag ==> cs[i] in r
  {
    if cs == [] then []
    else
      var init := AllTagged(cs[..|cs| - 1], tag);
      var last := cs[|cs| - 1];
      assert forall i :: 0 <= i < |cs| - 1 ==> cs[i] == cs[..|cs| - 1][i];
      if last.tag == tag then init + [last] else init
  }

  /** `findall` over two runs of children gives the first run's matches
      followed by the second's: document order and repeats are kept. */
  lemma {:induction false} AllTaggedAppend(xs: seq<Element>, ys: seq<Element>, tag: string)
    ensures AllTagged(xs + ys, tag) == AllTagged(xs, tag) + AllTagged(ys, tag)
    decreases |ys|
  {
    if ys == [] {
      assert xs + ys == xs;
    } else {
      var n := |ys| - 1;
      assert (xs + ys)[..|xs + ys| - 1] == xs + ys[..n];
      AllTaggedAppend(xs, ys[..n], tag);
    }
  }

  /** One child is matched once when it has the tag, and not otherwise. */
  lemma AllTaggedOne(e: Element, tag: string)
    ensures AllTagged([e], tag) == if e.tag == tag then [e] else []
  {
    assert [e][..0] == [];
  }

  /** `e.find(tag)`: the first child with this tag. */
  function FindChild(e: Element, tag: string): Option<Element> {
    FirstTagged(e.children, tag)
  }

  /** `e.findall(tag)`: the children with this tag. */
  function FindAll(e: Element, tag: string): seq<Element> {
    AllTagged(e.children, tag)
  }

  /** `_get_text(e, tag)`: the text of the first child with this tag, or
      `None` when there is no such child or it has no text. */
  function ChildText(e: Element, tag: string): Option<string> {
    match FindChild(e, tag)
    case None => None
    case Some(c) => c.text
  }

  /** The elements below `cs` and `cs` themselves, in document order. */
  function Forest(cs: seq<Element>): seq<Element>
    decreases cs
  {
    if cs == [] then [] else [cs[0]] + Forest(cs[0].children) + Forest(cs[1..])
  }

  /** Every element strictly below `e`, in document order (what a `.//`
      path searches). */
  function Descendants(e: Element): seq<Element> {
    Forest(e.children)
  }

  /** Every child of `e` is among its descendants. */
  lemma {:induction false} ChildrenAreDescendants(cs: seq<Element>, i: nat)
    requires i < |cs|
    ensures cs[i] in Forest(cs)
    decreases cs
  {
    if i > 0 {
      ChildrenAreDescendants(cs[1..], i - 1);
    }
  }

  /** `e.find(".//tag")`. */
  function FindDescendant(e: Element, tag: string): Option<Element> {
    FirstTagged(Descendants(e), tag)
  }

  /** `e.findall(".//tag")`. */
  function FindAllDescendants(e: Element, tag: string): seq<Element> {
    AllTagged(Descendants(e), tag)
  }

  /** The first child tagged `inner` of the first element of `ds` tagged
      `outer` that has one. */
  function FirstChildOfTagged(ds: seq<Element>, outer: string, inner: string): Option<Element>
  {
    if ds == [] then None
    else if ds[0].tag == outer && FindChild(ds[0], inner).Some? then FindChild(ds[0], inner)
    else FirstChildOfTagged(ds[1..], outer, inner)
  }

  /** `e.find(".//outer/inner")`. */
  function FindUnder(e: Element, outer: string, inner: string): Option<Element> {
    FirstChildOfTagged(Descendants(e), outer, inner)
  }

  /** `elem.tag.split('}')[1]` when the tag starts with '{'; `None` stands
      for the IndexError of a '{' tag without '}'. */
  function StripTag(tag: string): Option<string> {
    if StartsWith(tag, "{") then
      var parts := Split(tag, '}');
      if |parts| >= 2 then Some(parts[1]) else None
    else Some(tag)
  }

  /** A tag in Clark notation, `{uri}local`, loses its namespace part. */
  lemma ClarkTag(ns: string, local: string)
    requires '}' !in ns && '}' !in local
    ensures StripTag("{" + ns + "}" + local) == Some(local)
  {
    var tag := "{" + ns + "}" + local;
    assert tag == ("{" + ns) + ['}'] + local;
    SplitAfterPiece("{" + ns, local, '}');
    SplitNoSep(local, '}');
  }

  /** `_remove_namespace(e)`: every tag of the tree stripped of its
      namespace; `None` when some tag cannot be stripped. */
  function RemoveNamespace(e: Element): Option<Element>
    decreases e, 1
  {
    match StripTag(e.tag)
    case None => None
    case Some(t) =>
      match RemoveNamespaceAll(e.children)
      case None => None
      case Some(cs) => Some(Element(t, e.text, cs))
  }

  function RemoveNamespaceAll(cs: seq<Element>): (r: Option<seq<Element>>)
    ensures r.Some? ==> |r.value| == |cs|
    decreases cs, 0
  {
    if cs == [] then Some([])
    else
      match RemoveNamespace(cs[0])
      case None => None
      case Some(c) =>
        match RemoveNamespaceAll(cs[1..])
        case None => None
        case Some(rest) => Some([c] + rest)
  }

  /** A tag that `_remove_namespace` can rewrite. */
  predicate StrippableTag(tag: string) {
    !StartsWith(tag, "{") || '}' in tag
  }

  predicate AllStrippable(e: Element)
    decreases e, 1
  {
    StrippableTag(e.tag) && AllStrippableIn(e.children)
  }

  predicate AllStrippableIn(cs: seq<Element>)
    decreases cs, 0
  {
    cs == [] || (AllStrippable(cs[0]) && AllStrippableIn(cs[1..]))
  }

  /** Namespace stripping fails exactly when some '{' tag has no '}'. */
  lemma {:induction false} RemoveNamespaceSucceeds(e: Element)
    ensures RemoveNamespace(e).Some? <==> AllStrippable(e)
    decreases e, 1
  {
    RemoveNamespaceAllSucceeds(e.children);
    if StartsWith(e.tag, "{") {
      assert |Split(e.tag, '}')| >= 2 <==> '}' in e.tag;
    }
  }

  lemma {:induction false} RemoveNamespaceAllSucceeds(cs: seq<Element>)
    ensures RemoveNamespaceAll(cs).Some? <==> AllStrippableIn(cs)
    decreases cs, 0
  {
    if cs != [] {
      RemoveNamespaceSucceeds(cs[0]);
      RemoveNamespaceAllSucceeds(cs[1..]);
    }
  }

  /** No tag of the tree carries a namespace. */
  predicate Plain(e: Element)
    decreases e, 1
  {
    !StartsWith(e.tag, "{") && PlainIn(e.children)
  }

  predicate PlainIn(cs: seq<Element>)
    decreases cs, 0
  {
    cs == [] || (Plain(cs[0]) && PlainIn(cs[1..]))
  }

  /** A tree without namespaces comes back unchanged. */
  lemma {:induction false} RemoveNamespacePlain(e: Element)
    requires Plain(e)
    ensures RemoveNamespace(e) == Some(e)
    decreases e, 1
  {
    RemoveNamespaceAllPlain(e.children);
  }

  lemma {:induction false} RemoveNamespaceAllPlain(cs: seq<Element>)
    requires PlainIn(cs)
    ensures RemoveNamespaceAll(cs) == Some(cs)
    decreases cs, 0
  {
    if cs != [] {
      RemoveNamespacePlain(cs[0]);
      RemoveNamespaceAllPlain(cs[1..]);
      assert [cs[0]] + cs[1..] == cs;
    }
  }
}
