/** `_list_artifacts`: the walk of the repository's top three directory
    levels (group, artifact, version) that lists the version directories
    holding jar files, filtered by substring and cut off at a limit. */
module ArtifactListing {
  import opened Wrappers
  import opened Strings
  import opened FileTree
  import Pom
  import Server

  /** The optional group, artifact and version filters. */
  datatype Filters = Filters(group: Option<string>, artifact: Option<string>, version: Option<string>)

  /** One listed version directory. `path` is relative to the repository
      root. */
  datatype Listing = Listing(groupId: string, artifactId: string, version: string, jarFiles: seq<string>, path: Path)

  datatype ListResult = ListResult(totalFound: nat, artifacts: seq<Listing>)

  /** A filter that is unset or empty lets every name through; otherwise it
      must occur in the name. */
  predicate Passes(filter: Option<string>, name: string) {
    !Pom.Truthy(filter) || Contains(name, filter.value)
  }

  /** `version_dir.glob("*.jar")`, by name. */
  function JarNames(v: Node): seq<string> {
    NamesEndingWith(Entries(v), ".jar")
  }

  /** A version directory that is listed: it passes the version filter and
      holds a jar. */
  predicate Listable(f: Filters, v: Node) {
    v.Dir? && Passes(f.version, v.name) && JarNames(v) != []
  }

  function ListingOf(g: string, a: string, v: Node): Listing {
    Listing(Server.PathToGroupId([g]), a, v.name, JarNames(v), [g, a, v.name])
  }

  /** The directories among the entries of the repository root. */
  function GroupDirs(cs: seq<Node>): (r: seq<Node>)
    ensures |r| <= |cs|
    ensures forall x :: x in r <==> x in cs && x.Dir?
  {
    if cs == [] then []
    else if cs[0].Dir? then [cs[0]] + GroupDirs(cs[1..])
    else GroupDirs(cs[1..])
  }

  // ---------------------------------------------------------------------
  // Everything the filters let through, with no limit
  // ---------------------------------------------------------------------

  function VersionsAll(f: Filters, g: string, a: string, vs: seq<Node>): seq<Listing> {
    if vs == [] then []
    else (if Listable(f, vs[0]) then [ListingOf(g, a, vs[0])] else []) + VersionsAll(f, g, a, vs[1..])
  }

  function ArtifactsAll(f: Filters, g: string, as_: seq<Node>): seq<Listing> {
    if as_ == [] then []
    else
      (if as_[0].Dir? && Passes(f.artifact, as_[0].name) then VersionsAll(f, g, as_[0].name, as_[0].children) else [])
      + ArtifactsAll(f, g, as_[1..])
  }

  function GroupsAll(f: Filters, gs: seq<Node>): seq<Listing> {
    if gs == [] then []
    else
      (if Passes(f.group, gs[0].name) then ArtifactsAll(f, gs[0].name, Entries(gs[0])) else [])
      + GroupsAll(f, gs[1..])
  }

  /** The listings of one artifact directory are those of its listable
      version directories. */
  predicate VersionHas(f: Filters, g: string, a: string, vs: seq<Node>, l: Listing) {
    exists v :: v in vs && Listable(f, v) && l == ListingOf(g, a, v)
  }

  predicate ArtifactHas(f: Filters, g: string, as_: seq<Node>, l: Listing) {
    exists a :: a in as_ && a.Dir? && Passes(f.artifact, a.name) && VersionHas(f, g, a.name, a.children, l)
  }

  predicate GroupHas(f: Filters, gs: seq<Node>, l: Listing) {
    exists gd :: gd in gs && Passes(f.group, gd.name) && ArtifactHas(f, gd.name, Entries(gd), l)
  }

  lemma {:induction false} VersionsAllExactly(f: Filters, g: string, a: string, vs: seq<Node>, l: Listing)
    ensures l in VersionsAll(f, g, a, vs) <==> VersionHas(f, g, a, vs, l)
  {
    if vs != [] {
      VersionsAllExactly(f, g, a, vs[1..], l);
      if VersionHas(f, g, a, vs, l) {
        var v :| v in vs && Listable(f, v) && l == ListingOf(g, a, v);
        if v != vs[0] {
          assert v in vs[1..];
        }
      }
      if VersionHas(f, g, a, vs[1..], l) {
        var v :| v in vs[1..] && Listable(f, v) && l == ListingOf(g, a, v);
        assert v in vs;
      }
    }
  }

  lemma {:induction false} ArtifactsAllExactly(f: Filters, g: string, as_: seq<Node>, l: Listing)
    ensures l in ArtifactsAll(f, g, as_) <==> ArtifactHas(f, g, as_, l)
  {
    if as_ != [] {
      ArtifactsAllExactly(f, g, as_[1..], l);
      if as_[0].Dir? {
        VersionsAllExactly(f, g, as_[0].name, as_[0].children, l);
      }
      if ArtifactHas(f, g, as_, l) {
        var a :| a in as_ && a.Dir? && Passes(f.artifact, a.name) && VersionHas(f, g, a.name, a.children, l);
        if a != as_[0] {
          assert a in as_[1..];
        }
      }
      if ArtifactHas(f, g, as_[1..], l) {
        var a :| a in as_[1..] && a.Dir? && Passes(f.artifact, a.name) && VersionHas(f, g, a.name, a.children, l);
        assert a in as_;
      }
    }
  }

  /** A listing is found exactly when it comes from a version directory
      that holds a jar, in an artifact directory and a group directory, each
      passing its filter. */
  lemma {:induction false} GroupsAllExactly(f: Filters, gs: seq<Node>, l: Listing)
    ensures l in GroupsAll(f, gs) <==> GroupHas(f, gs, l)
  {
    if gs != [] {
      GroupsAllExactly(f, gs[1..], l);
      ArtifactsAllExactly(f, gs[0].name, Entries(gs[0]), l);
      if GroupHas(f, gs, l) {
        var gd :| gd in gs && Passes(f.group, gd.name) && ArtifactHas(f, gd.name, Entries(gd), l);
        if gd != gs[0] {
          assert gd in gs[1..];
        }
      }
      if GroupHas(f, gs[1..], l) {
        var gd :| gd in gs[1..] && Passes(f.group, gd.name) && ArtifactHas(f, gd.name, Entries(gd), l);
        assert gd in gs;
      }
    }
  }

  // ---------------------------------------------------------------------
  // The walk as it runs: each level stops once the count reaches the limit
  // ---------------------------------------------------------------------

  function ScanVersions(f: Filters, g: string, a: string, vs: seq<Node>, limit: int, acc: seq<Listing>): (r: seq<Listing>)
    ensures acc <= r
  {
    if vs == [] then acc
    else if Listable(f, vs[0]) then
      var found := acc + [ListingOf(g, a, vs[0])];
      if |found| >= limit then found else ScanVersions(f, g, a, vs[1..], limit, found)
    else ScanVersions(f, g, a, vs[1..], limit, acc)
  }

  function ScanArtifacts(f: Filters, g: string, as_: seq<Node>, limit: int, acc: seq<Listing>): (r: seq<Listing>)
    ensures acc <= r
  {
    if as_ == [] then acc
    else if as_[0].Dir? && Passes(f.artifact, as_[0].name) then
      var found := ScanVersions(f, g, as_[0].name, as_[0].children, limit, acc);
      if |found| >= limit then found else ScanArtifacts(f, g, as_[1..], limit, found)
    else ScanArtifacts(f, g, as_[1..], limit, acc)
  }

  function ScanGroups(f: Filters, gs: seq<Node>, limit: int, acc: seq<Listing>): (r: seq<Listing>)
    ensures acc <= r
  {
    if gs == [] then acc
    else if Passes(f.group, gs[0].name) then
      var found := ScanArtifacts(f, gs[0].name, Entries(gs[0]), limit, acc);
      if |found| >= limit then found else ScanGroups(f, gs[1..], limit, found)
    else ScanGroups(f, gs[1..], limit, acc)
  }

  /** Python's `xs[:stop]`: a negative stop counts from the end. */
  function Prefix<T>(xs: seq<T>, stop: int): (r: seq<T>)
    ensures stop >= 0 ==> |r| == if stop <= |xs| then stop else |xs|
    ensures stop < 0 ==> |r| == if |xs| + stop >= 0 then |xs| + stop else 0
    ensures r <= xs
  {
    var n := if stop >= 0 then stop else |xs| + stop;
    if n <= 0 then [] else if n <= |xs| then xs[..n] else xs
  }

  /** What `_list_artifacts` reports for the repository `root`. */
  function ListingResult(root: Node, f: Filters, limit: int): ListResult {
    var found := ScanGroups(f, GroupDirs(Entries(root)), limit, []);
    ListResult(|found|, Prefix(found, limit))
  }

  method ListArtifacts(root: Node, f: Filters, limit: int) returns (r: ListResult)
    ensures r == ListingResult(root, f, limit)
  {
    var groupDirs := GroupDirs(Entries(root));
    var artifacts: seq<Listing> := [];
    var count := 0;
    var gi := 0;
    while gi < |groupDirs|
      invariant gi <= |groupDirs| && count == |artifacts|
      invariant ScanGroups(f, groupDirs, limit, []) == ScanGroups(f, groupDirs[gi..], limit, artifacts)
    {
      var group := groupDirs[gi];
      GroupUnfold(f, groupDirs, gi, limit, artifacts);
      if Passes(f.group, group.name) {
        var start := artifacts;
        var children := Entries(group);
        var ai := 0;
        while ai < |children|
          invariant ai <= |children| && count == |artifacts|
          invariant ScanArtifacts(f, group.name, children, limit, start)
            == ScanArtifacts(f, group.name, children[ai..], limit, artifacts)
        {
          var artifact := children[ai];
          ArtifactUnfold(f, group.name, children, ai, limit, artifacts);
          if artifact.Dir? && Passes(f.artifact, artifact.name) {
            artifacts := ListVersions(f, group.name, artifact, limit, artifacts);
            count := |artifacts|;
            if count >= limit {
              break;
            }
          }
          ai := ai + 1;
        }
        assert artifacts == ScanArtifacts(f, group.name, children, limit, start);
        if count >= limit {
          break;
        }
      }
      gi := gi + 1;
    }
    r := ListResult(count, Prefix(artifacts, limit));
  }

  /** The innermost loop of the walk: the version directories of one
      artifact directory, stopping once `limit` artifacts are found. */
  method ListVersions(f: Filters, g: string, artifact: Node, limit: int, acc: seq<Listing>) returns (artifacts: seq<Listing>)
    requires artifact.Dir?
    ensures artifacts == ScanVersions(f, g, artifact.name, artifact.children, limit, acc)
  {
    artifacts := acc;
    var count := |acc|;
    var versions := artifact.children;
    var vi := 0;
    while vi < |versions|
      invariant vi <= |versions| && count == |artifacts|
      invariant ScanVersions(f, g, artifact.name, versions, limit, acc)
        == ScanVersions(f, g, artifact.name, versions[vi..], limit, artifacts)
    {
      var version := versions[vi];
      VersionUnfold(f, g, artifact.name, versions, vi, limit, artifacts);
      if version.Dir? && Passes(f.version, version.name) {
        var jarFiles := JarNames(version);
        if jarFiles != [] {
          artifacts := artifacts + [Listing(Server.PathToGroupId([g]), artifact.name,
            version.name, jarFiles, [g, artifact.name, version.name])];
          count := count + 1;
          if count >= limit {
            return;
          }
        }
      }
      vi := vi + 1;
    }
  }

  /** One step of each loop of the walk. */
  lemma VersionUnfold(f: Filters, g: string, a: string, vs: seq<Node>, i: nat, limit: int, acc: seq<Listing>)
    requires i < |vs|
    ensures ScanVersions(f, g, a, vs[i..], limit, acc) ==
      if Listable(f, vs[i]) then
        (var found := acc + [ListingOf(g, a, vs[i])];
         if |found| >= limit then found else ScanVersions(f, g, a, vs[i + 1..], limit, found))
      else ScanVersions(f, g, a, vs[i + 1..], limit, acc)
  {
    assert vs[i..][1..] == vs[i + 1..];
  }

  lemma ArtifactUnfold(f: Filters, g: string, as_: seq<Node>, i: nat, limit: int, acc: seq<Listing>)
    requires i < |as_|
    ensures ScanArtifacts(f, g, as_[i..], limit, acc) ==
      if as_[i].Dir? && Passes(f.artifact, as_[i].name) then
        (var found := ScanVersions(f, g, as_[i].name, as_[i].children, limit, acc);
         if |found| >= limit then found else ScanArtifacts(f, g, as_[i + 1..], limit, found))
      else ScanArtifacts(f, g, as_[i + 1..], limit, acc)
  {
    assert as_[i..][1..] == as_[i + 1..];
  }

  lemma GroupUnfold(f: Filters, gs: seq<Node>, i: nat, limit: int, acc: seq<Listing>)
    requires i < |gs|
    ensures ScanGroups(f, gs[i..], limit, acc) ==
      if Passes(f.group, gs[i].name) then
        (var found := ScanArtifacts(f, gs[i].name, Entries(gs[i]), limit, acc);
         if |found| >= limit then found else ScanGroups(f, gs[i + 1..], limit, found))
      else ScanGroups(f, gs[i + 1..], limit, acc)
  {
    assert gs[i..][1..] == gs[i + 1..];
  }

  // ---------------------------------------------------------------------
  // The limit
  // ---------------------------------------------------------------------

  lemma PrefixWhole<T>(xs: seq<T>, n: int)
    requires |xs| <= n
    ensures Prefix(xs, n) == xs
  {
  }

  lemma PrefixExtend<T>(xs: seq<T>, ys: seq<T>, n: int)
    requires 0 <= n <= |xs|
    ensures Prefix(xs + ys, n) == Prefix(xs, n)
  {
    assert (xs + ys)[..n] == xs[..n];
  }

  /** Below the limit, the versions walk yields the first listings of
      everything it would find, up to the limit. */
  lemma {:induction false} ScanVersionsLimited(f: Filters, g: string, a: string, vs: seq<Node>, limit: int, acc: seq<Listing>)
    requires |acc| < limit
    ensures ScanVersions(f, g, a, vs, limit, acc) == Prefix(acc + VersionsAll(f, g, a, vs), limit)
  {
    if vs == [] {
      assert acc + [] == acc;
    } else {
      var rest := VersionsAll(f, g, a, vs[1..]);
      if Listable(f, vs[0]) {
        var found := acc + [ListingOf(g, a, vs[0])];
        assert acc + VersionsAll(f, g, a, vs) == found + rest;
        if |found| >= limit {
          PrefixExtend(found, rest, limit);
        } else {
          ScanVersionsLimited(f, g, a, vs[1..], limit, found);
        }
      } else {
        ScanVersionsLimited(f, g, a, vs[1..], limit, acc);
      }
    }
  }

  /** One step of a level of the walk below the limit: the listings one
      directory adds are cut at the limit, and the walk goes on only when
      the limit is not reached. */
  lemma LimitedStep(acc: seq<Listing>, inner: seq<Listing>, found: seq<Listing>, later: seq<Listing>, limit: int, next: seq<Listing>)
    requires |acc| < limit && found == Prefix(acc + inner, limit)
    requires |found| < limit ==> next == Prefix(found + later, limit)
    ensures (if |found| >= limit then found else next) == Prefix(acc + (inner + later), limit)
  {
    assert acc + (inner + later) == (acc + inner) + later;
    if |found| >= limit {
      PrefixExtend(acc + inner, later, limit);
    }
  }

  lemma {:induction false} ScanArtifactsLimited(f: Filters, g: string, as_: seq<Node>, limit: int, acc: seq<Listing>)
    requires |acc| < limit
    ensures ScanArtifacts(f, g, as_, limit, acc) == Prefix(acc + ArtifactsAll(f, g, as_), limit)
  {
    if as_ == [] {
      assert acc + [] == acc;
    } else if as_[0].Dir? && Passes(f.artifact, as_[0].name) {
      var found := ScanVersions(f, g, as_[0].name, as_[0].children, limit, acc);
      if |found| < limit {
        ScanArtifactsLimited(f, g, as_[1..], limit, found);
      }
      ArtifactStep(f, g, as_, limit, acc);
    } else {
      ScanArtifactsLimited(f, g, as_[1..], limit, acc);
      ArtifactSkip(f, g, as_, limit, acc);
    }
  }

  lemma ArtifactSkip(f: Filters, g: string, as_: seq<Node>, limit: int, acc: seq<Listing>)
    requires as_ != [] && !(as_[0].Dir? && Passes(f.artifact, as_[0].name))
    requires ScanArtifacts(f, g, as_[1..], limit, acc) == Prefix(acc + ArtifactsAll(f, g, as_[1..]), limit)
    ensures ScanArtifacts(f, g, as_, limit, acc) == Prefix(acc + ArtifactsAll(f, g, as_), limit)
  {
    assert ScanArtifacts(f, g, as_, limit, acc) == ScanArtifacts(f, g, as_[1..], limit, acc);
    assert ArtifactsAll(f, g, as_) == [] + ArtifactsAll(f, g, as_[1..]);
    assert [] + ArtifactsAll(f, g, as_[1..]) == ArtifactsAll(f, g, as_[1..]);
  }

  lemma ArtifactStep(f: Filters, g: string, as_: seq<Node>, limit: int, acc: seq<Listing>)
    requires as_ != [] && as_[0].Dir? && Passes(f.artifact, as_[0].name) && |acc| < limit
    requires var found := ScanVersions(f, g, as_[0].name, as_[0].children, limit, acc);
      |found| < limit ==> ScanArtifacts(f, g, as_[1..], limit, found) == Prefix(found + ArtifactsAll(f, g, as_[1..]), limit)
    ensures ScanArtifacts(f, g, as_, limit, acc) == Prefix(acc + ArtifactsAll(f, g, as_), limit)
  {
    var a := as_[0];
    var versions := VersionsAll(f, g, a.name, a.children);
    var found := ScanVersions(f, g, a.name, a.children, limit, acc);
    ScanVersionsLimited(f, g, a.name, a.children, limit, acc);
    LimitedStep(acc, versions, found, ArtifactsAll(f, g, as_[1..]), limit, ScanArtifacts(f, g, as_[1..], limit, found));
  }

  lemma {:induction false} ScanGroupsLimited(f: Filters, gs: seq<Node>, limit: int, acc: seq<Listing>)
    requires |acc| < limit
    ensures ScanGroups(f, gs, limit, acc) == Prefix(acc + GroupsAll(f, gs), limit)
  {
    if gs == [] {
      assert acc + [] == acc;
    } else if Passes(f.group, gs[0].name) {
      var found := ScanArtifacts(f, gs[0].name, Entries(gs[0]), limit, acc);
      if |found| < limit {
        ScanGroupsLimited(f, gs[1..], limit, found);
      }
      GroupStep(f, gs, limit, acc);
    } else {
      ScanGroupsLimited(f, gs[1..], limit, acc);
      GroupSkip(f, gs, limit, acc);
    }
  }

  lemma GroupStep(f: Filters, gs: seq<Node>, limit: int, acc: seq<Listing>)
    requires gs != [] && Passes(f.group, gs[0].name) && |acc| < limit
    requires var found := ScanArtifacts(f, gs[0].name, Entries(gs[0]), limit, acc);
      |found| < limit ==> ScanGroups(f, gs[1..], limit, found) == Prefix(found + GroupsAll(f, gs[1..]), limit)
    ensures ScanGroups(f, gs, limit, acc) == Prefix(acc + GroupsAll(f, gs), limit)
  {
    var gd := gs[0];
    var artifacts := ArtifactsAll(f, gd.name, Entries(gd));
    var found := ScanArtifacts(f, gd.name, Entries(gd), limit, acc);
    var next := ScanGroups(f, gs[1..], limit, found);
    assert ScanGroups(f, gs, limit, acc) == if |found| >= limit then found else next;
    assert GroupsAll(f, gs) == artifacts + GroupsAll(f, gs[1..]);
    ScanArtifactsLimited(f, gd.name, Entries(gd), limit, acc);
    LimitedStep(acc, artifacts, found, GroupsAll(f, gs[1..]), limit, next);
  }

  lemma GroupSkip(f: Filters, gs: seq<Node>, limit: int, acc: seq<Listing>)
    requires gs != [] && !Passes(f.group, gs[0].name)
    requires ScanGroups(f, gs[1..], limit, acc) == Prefix(acc + GroupsAll(f, gs[1..]), limit)
    ensures ScanGroups(f, gs, limit, acc) == Prefix(acc + GroupsAll(f, gs), limit)
  {
    assert ScanGroups(f, gs, limit, acc) == ScanGroups(f, gs[1..], limit, acc);
    assert GroupsAll(f, gs) == [] + GroupsAll(f, gs[1..]);
    assert [] + GroupsAll(f, gs[1..]) == GroupsAll(f, gs[1..]);
  }

  /** With a positive limit, the listing is the first `limit` version
      directories the filters let through, in walk order, and the count is
      their number, so never more than the limit. */
  lemma ListPositiveLimit(root: Node, f: Filters, limit: int)
    requires limit >= 1
    ensures var r := ListingResult(root, f, limit);
      var all := GroupsAll(f, GroupDirs(Entries(root)));
      && r.artifacts == Prefix(all, limit)
      && r.totalFound == |r.artifacts| <= limit
      && r.totalFound == if |all| <= limit then |all| else limit
  {
    var gs := GroupDirs(Entries(root));
    var all := GroupsAll(f, gs);
    var found := ScanGroups(f, gs, limit, []);
    assert found == Prefix(all, limit) by {
      ScanGroupsLimited(f, gs, limit, []);
      assert [] + all == all;
    }
    PrefixWhole(found, limit);
  }

  /** At or past the limit, a walk adds at most one more listing. */
  lemma {:induction false} ScanVersionsAtLimit(f: Filters, g: string, a: string, vs: seq<Node>, limit: int, acc: seq<Listing>)
    requires |acc| >= limit
    ensures |ScanVersions(f, g, a, vs, limit, acc)| <= |acc| + 1
  {
    if vs != [] && !Listable(f, vs[0]) {
      ScanVersionsAtLimit(f, g, a, vs[1..], limit, acc);
    }
  }

  lemma {:induction false} ScanArtifactsAtLimit(f: Filters, g: string, as_: seq<Node>, limit: int, acc: seq<Listing>)
    requires |acc| >= limit
    ensures |ScanArtifacts(f, g, as_, limit, acc)| <= |acc| + 1
  {
    if as_ != [] {
      if as_[0].Dir? && Passes(f.artifact, as_[0].name) {
        ScanVersionsAtLimit(f, g, as_[0].name, as_[0].children, limit, acc);
      } else {
        ScanArtifactsAtLimit(f, g, as_[1..], limit, acc);
      }
    }
  }

  lemma {:induction false} ScanGroupsAtLimit(f: Filters, gs: seq<Node>, limit: int, acc: seq<Listing>)
    requires |acc| >= limit
    ensures |ScanGroups(f, gs, limit, acc)| <= |acc| + 1
  {
    if gs != [] {
      if Passes(f.group, gs[0].name) {
        ScanArtifactsAtLimit(f, gs[0].name, Entries(gs[0]), limit, acc);
      } else {
        ScanGroupsAtLimit(f, gs[1..], limit, acc);
      }
    }
  }

  /** With a limit of zero or less, the first check of the count already
      passes: the walk stops after the first artifact directory it enters,
      so at most one version is counted, and the slice returns nothing. */
  lemma ListNonPositiveLimit(root: Node, f: Filters, limit: int)
    requires limit <= 0
    ensures ListingResult(root, f, limit).artifacts == []
    ensures ListingResult(root, f, limit).totalFound <= 1
  {
    ScanGroupsAtLimit(f, GroupDirs(Entries(root)), limit, []);
  }

  /** A listing's group id is the name of its top-level directory. */
  lemma ListedGroupId(f: Filters, gs: seq<Node>, l: Listing)
    requires l in GroupsAll(f, gs)
    ensures |l.path| == 3 && l.artifactId == l.path[1] && l.version == l.path[2]
    ensures '/' !in l.path[0] ==> l.groupId == l.path[0]
    ensures Passes(f.group, l.path[0]) && Passes(f.artifact, l.artifactId) && Passes(f.version, l.version)
    ensures l.jarFiles != [] && forall i :: 0 <= i < |l.jarFiles| ==> EndsWith(l.jarFiles[i], ".jar")
  {
    GroupsAllExactly(f, gs, l);
    var gd :| gd in gs && Passes(f.group, gd.name) && ArtifactHas(f, gd.name, Entries(gd), l);
    var a :| a in Entries(gd) && a.Dir? && Passes(f.artifact, a.name) && VersionHas(f, gd.name, a.name, a.children, l);
    if '/' !in gd.name {
      assert Join([gd.name], '/') == gd.name;
      ReplaceAbsent(gd.name, '/', '.');
    }
  }
}
