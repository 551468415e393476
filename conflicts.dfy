/** `_analyze_conflicts`: occurrences grouped by `group:artifact`, and one
    conflict per group whose occurrences carry more than one version. */
module Conflicts {
  import opened Wrappers
  import opened Pom
  import opened Transitive

  /** Where an occurrence comes from: a direct dependency, or a transitive
      one found under the dependency with key `via`. */
  datatype Origin = Direct | Inherited(via: string)

  datatype Occurrence = Occurrence(version: Option<string>, origin: Origin, scope: string)

  /** A conflict: the artifact, its distinct versions (the order of
      `list(set)` is not modelled) and every occurrence of it. */
  datatype Conflict = Conflict(artifact: string, versions: set<string>, sources: seq<Occurrence>)

  /** `f"{groupId}:{artifactId}"`. */
  function ArtifactKey(d: Dependency): string {
    d.groupId + ":" + d.artifactId
  }

  /** The occurrences in the order the two loops visit them: the direct
      dependencies, then the transitive ones. */
  function DirectTagged(direct: seq<Dependency>): seq<(string, Occurrence)> {
    if direct == [] then []
    else
      var d := direct[|direct| - 1];
      DirectTagged(direct[..|direct| - 1]) + [(ArtifactKey(d), Occurrence(d.version, Direct, d.scope))]
  }

  function TransitiveTagged(ts: seq<TransitiveDep>): seq<(string, Occurrence)> {
    if ts == [] then []
    else
      var t := ts[|ts| - 1];
      TransitiveTagged(ts[..|ts| - 1]) + [(ArtifactKey(t.dep), Occurrence(t.dep.version, Inherited(t.via), t.dep.scope))]
  }

  function Tagged(direct: seq<Dependency>, ts: seq<TransitiveDep>): seq<(string, Occurrence)> {
    DirectTagged(direct) + TransitiveTagged(ts)
  }

  /** The keys of `xs` in order of first appearance (the dict's key order). */
  function KeysInOrder(xs: seq<(string, Occurrence)>): seq<string> {
    if xs == [] then []
    else
      var keys := KeysInOrder(xs[..|xs| - 1]);
      if xs[|xs| - 1].0 in keys then keys else keys + [xs[|xs| - 1].0]
  }

  /** The key order lists each key of `xs` once. */
  lemma {:induction false} KeysInOrderExactly(xs: seq<(string, Occurrence)>)
    ensures forall i, j :: 0 <= i < j < |KeysInOrder(xs)| ==> KeysInOrder(xs)[i] != KeysInOrder(xs)[j]
    ensures forall k :: k in KeysInOrder(xs) <==> exists i :: 0 <= i < |xs| && xs[i].0 == k
  {
    if xs != [] {
      var init := xs[..|xs| - 1];
      var last := xs[|xs| - 1].0;
      KeysInOrderExactly(init);
      var keys := KeysInOrder(xs);
      forall k ensures k in keys <==> exists i :: 0 <= i < |xs| && xs[i].0 == k {
        if k in keys {
          if k in KeysInOrder(init) {
            var i :| 0 <= i < |init| && init[i].0 == k;
            assert xs[i].0 == k;
          } else {
            assert xs[|xs| - 1].0 == k;
          }
        }
        if exists i :: 0 <= i < |xs| && xs[i].0 == k {
          var i :| 0 <= i < |xs| && xs[i].0 == k;
          if i < |init| {
            assert init[i].0 == k;
          }
        }
      }
    }
  }

  lemma {:induction false} DirectTaggedAt(direct: seq<Dependency>)
    ensures |DirectTagged(direct)| == |direct|
    ensures forall i :: 0 <= i < |direct| ==> DirectTagged(direct)[i].1.origin == Direct
  {
    if direct != [] {
      DirectTaggedAt(direct[..|direct| - 1]);
    }
  }

  lemma {:induction false} TransitiveTaggedAt(ts: seq<TransitiveDep>)
    ensures |TransitiveTagged(ts)| == |ts|
    ensures forall i :: 0 <= i < |ts| ==> TransitiveTagged(ts)[i].1.origin == Inherited(ts[i].via)
  {
    if ts != [] {
      TransitiveTaggedAt(ts[..|ts| - 1]);
    }
  }

  /** The occurrences of one key, in order. */
  function OccurrencesOf(xs: seq<(string, Occurrence)>, k: string): (os: seq<Occurrence>)
    ensures |os| <= |xs|
  {
    if xs == [] then []
    else
      var init := OccurrencesOf(xs[..|xs| - 1], k);
      if xs[|xs| - 1].0 == k then init + [xs[|xs| - 1].1] else init
  }

  /** The distinct truthy versions among some occurrences. */
  function Versions(os: seq<Occurrence>): set<string> {
    set i | 0 <= i < |os| && os[i].version.Some? && os[i].version.value != [] :: os[i].version.value
  }

  function ConflictsOver(xs: seq<(string, Occurrence)>, keys: seq<string>): seq<Conflict> {
    if keys == [] then []
    else
      var init := ConflictsOver(xs, keys[..|keys| - 1]);
      var k := keys[|keys| - 1];
      var os := OccurrencesOf(xs, k);
      if |Versions(os)| > 1 then init + [Conflict(k, Versions(os), os)] else init
  }

  /** The conflicts of an analysis, in the order their artifacts first
      appear. */
  function ConflictsOf(direct: seq<Dependency>, ts: seq<TransitiveDep>): seq<Conflict> {
    var xs := Tagged(direct, ts);
    ConflictsOver(xs, KeysInOrder(xs))
  }

  /** The dict of lists the first two loops fill: `keys` its key order,
      `groups` its contents, for the occurrences `xs` seen so far. */
  ghost predicate Grouped(xs: seq<(string, Occurrence)>, keys: seq<string>, groups: map<string, seq<Occurrence>>) {
    keys == KeysInOrder(xs)
    && (forall k :: k in groups <==> k in keys)
    && (forall k :: k in groups ==> groups[k] == OccurrencesOf(xs, k))
  }

  /** Appending one occurrence to its key's list keeps the dict in step. */
  lemma Recorded(xs: seq<(string, Occurrence)>, keys: seq<string>, groups: map<string, seq<Occurrence>>, k: string, o: Occurrence)
    requires Grouped(xs, keys, groups)
    ensures var keys' := if k in groups then keys else keys + [k];
      var groups' := groups[k := (if k in groups then groups[k] else []) + [o]];
      Grouped(xs + [(k, o)], keys', groups')
  {
    var ys := xs + [(k, o)];
    assert ys[..|ys| - 1] == xs;
    var groups' := groups[k := (if k in groups then groups[k] else []) + [o]];
    forall k2 | k2 in groups' ensures groups'[k2] == OccurrencesOf(ys, k2) {
      if k2 == k {
        if k !in groups {
          KeysInOrderExactly(xs);
          EmptyOccurrences(xs, k);
        }
      }
    }
  }

  /** A key that does not occur has no occurrences. */
  lemma {:induction false} EmptyOccurrences(xs: seq<(string, Occurrence)>, k: string)
    requires forall i :: 0 <= i < |xs| ==> xs[i].0 != k
    ensures OccurrencesOf(xs, k) == []
  {
    if xs != [] {
      EmptyOccurrences(xs[..|xs| - 1], k);
    }
  }

  /** The tagged direct dependencies, one more. */
  lemma DirectTaggedStep(direct: seq<Dependency>, i: nat)
    requires i < |direct|
    ensures DirectTagged(direct[..i + 1]) ==
      DirectTagged(direct[..i]) + [(ArtifactKey(direct[i]), Occurrence(direct[i].version, Direct, direct[i].scope))]
  {
    assert direct[..i + 1][..i] == direct[..i];
  }

  /** The tagged entries, one transitive entry more. */
  lemma TaggedStep(direct: seq<Dependency>, ts: seq<TransitiveDep>, j: nat)
    requires j < |ts|
    ensures Tagged(direct, ts[..j + 1]) ==
      Tagged(direct, ts[..j]) + [(ArtifactKey(ts[j].dep), Occurrence(ts[j].dep.version, Inherited(ts[j].via), ts[j].dep.scope))]
  {
    assert ts[..j + 1][..j] == ts[..j];
    assert TransitiveTagged(ts[..j + 1]) == TransitiveTagged(ts[..j])
      + [(ArtifactKey(ts[j].dep), Occurrence(ts[j].dep.version, Inherited(ts[j].via), ts[j].dep.scope))];
  }

  /** `_analyze_conflicts`. */
  method AnalyzeConflicts(direct: seq<Dependency>, ts: seq<TransitiveDep>) returns (conflicts: seq<Conflict>)
    ensures conflicts == ConflictsOf(direct, ts)
  {
    var keys: seq<string> := [];
    var byArtifact: map<string, seq<Occurrence>> := map[];
    var i := 0;
    assert direct[..0] == [];
    while i < |direct|
      invariant 0 <= i <= |direct|
      invariant Grouped(DirectTagged(direct[..i]), keys, byArtifact)
    {
      DirectTaggedStep(direct, i);
      var d := direct[i];
      var k := ArtifactKey(d);
      var o := Occurrence(d.version, Direct, d.scope);
      Recorded(DirectTagged(direct[..i]), keys, byArtifact, k, o);
      var previous := if k in byArtifact then byArtifact[k] else [];
      if k !in byArtifact {
        keys := keys + [k];
      }
      byArtifact := byArtifact[k := previous + [o]];
      i := i + 1;
    }
    assert direct[..i] == direct;
    assert ts[..0] == [];
    assert Tagged(direct, ts[..0]) == DirectTagged(direct) + TransitiveTagged([]);
    assert DirectTagged(direct) + TransitiveTagged([]) == DirectTagged(direct);
    var j := 0;
    while j < |ts|
      invariant 0 <= j <= |ts|
      invariant Grouped(Tagged(direct, ts[..j]), keys, byArtifact)
    {
      TaggedStep(direct, ts, j);
      var t := ts[j];
      var k := ArtifactKey(t.dep);
      var o := Occurrence(t.dep.version, Inherited(t.via), t.dep.scope);
      Recorded(Tagged(direct, ts[..j]), keys, byArtifact, k, o);
      var previous := if k in byArtifact then byArtifact[k] else [];
      if k !in byArtifact {
        keys := keys + [k];
      }
      byArtifact := byArtifact[k := previous + [o]];
      j := j + 1;
    }
    assert ts[..j] == ts;
    conflicts := [];
    var n := 0;
    while n < |keys|
      invariant 0 <= n <= |keys|
      invariant conflicts == ConflictsOver(Tagged(direct, ts), keys[..n])
    {
      assert keys[..n + 1][..n] == keys[..n];
      var k := keys[n];
      var versions := Versions(byArtifact[k]);
      if |versions| > 1 {
        conflicts := conflicts + [Conflict(k, versions, byArtifact[k])];
      }
      n := n + 1;
    }
    assert keys[..n] == keys;
  }

  /** A conflict is reported for a key exactly when the key occurs and its
      occurrences carry more than one distinct truthy version; it lists
      those versions and every occurrence. */
  lemma {:induction false} ConflictOver(xs: seq<(string, Occurrence)>, keys: seq<string>, c: Conflict)
    ensures c in ConflictsOver(xs, keys) <==>
      c.artifact in keys && |Versions(OccurrencesOf(xs, c.artifact))| > 1
      && c.versions == Versions(OccurrencesOf(xs, c.artifact)) && c.sources == OccurrencesOf(xs, c.artifact)
  {
    if keys != [] {
      var init := keys[..|keys| - 1];
      ConflictOver(xs, init, c);
      assert keys == init + [keys[|keys| - 1]];
    }
  }

  /** The artifacts of the conflicts are distinct. */
  lemma {:induction false} ConflictsDistinct(xs: seq<(string, Occurrence)>, keys: seq<string>)
    requires forall i, j :: 0 <= i < j < |keys| ==> keys[i] != keys[j]
    ensures var cs := ConflictsOver(xs, keys);
      forall i, j :: 0 <= i < j < |cs| ==> cs[i].artifact != cs[j].artifact
  {
    if keys != [] {
      var init := keys[..|keys| - 1];
      ConflictsDistinct(xs, init);
      var cs := ConflictsOver(xs, init);
      forall i | 0 <= i < |cs| ensures cs[i].artifact != keys[|keys| - 1] {
        ConflictOver(xs, init, cs[i]);
      }
    }
  }

  /** Exactly one conflict per `group:artifact` with more than one version:
      `c` is a conflict of the analysis iff its artifact occurs, has more
      than one distinct truthy version, and `c` carries those versions and
      all occurrences; no two conflicts share an artifact. */
  lemma ConflictsExactly(direct: seq<Dependency>, ts: seq<TransitiveDep>, c: Conflict)
    ensures var xs := Tagged(direct, ts);
      c in ConflictsOf(direct, ts) <==>
        (exists i :: 0 <= i < |xs| && xs[i].0 == c.artifact)
        && |Versions(OccurrencesOf(xs, c.artifact))| > 1
        && c.versions == Versions(OccurrencesOf(xs, c.artifact))
        && c.sources == OccurrencesOf(xs, c.artifact)
    ensures var cs := ConflictsOf(direct, ts);
      forall i, j :: 0 <= i < j < |cs| ==> cs[i].artifact != cs[j].artifact
  {
    var xs := Tagged(direct, ts);
    KeysInOrderExactly(xs);
    ConflictOver(xs, KeysInOrder(xs), c);
    ConflictsDistinct(xs, KeysInOrder(xs));
  }

  lemma {:induction false} OccurrencesAppend(xs: seq<(string, Occurrence)>, ys: seq<(string, Occurrence)>, k: string)
    ensures OccurrencesOf(xs + ys, k) == OccurrencesOf(xs, k) + OccurrencesOf(ys, k)
  {
    if ys == [] {
      assert xs + ys == xs;
    } else {
      var init := ys[..|ys| - 1];
      OccurrencesAppend(xs, init, k);
      assert (xs + ys)[..|xs + ys| - 1] == xs + init;
    }
  }

  /** A conflict's sources list the direct occurrences first, then the
      transitive ones, each in input order. */
  lemma DirectSourcesFirst(direct: seq<Dependency>, ts: seq<TransitiveDep>, k: string)
    ensures OccurrencesOf(Tagged(direct, ts), k) == OccurrencesOf(DirectTagged(direct), k) + OccurrencesOf(TransitiveTagged(ts), k)
    ensures forall o :: o in OccurrencesOf(DirectTagged(direct), k) ==> o.origin == Direct
    ensures forall o :: o in OccurrencesOf(TransitiveTagged(ts), k) ==> o.origin.Inherited?
  {
    OccurrencesAppend(DirectTagged(direct), TransitiveTagged(ts), k);
    OccurrencesFrom(DirectTagged(direct), k);
    OccurrencesFrom(TransitiveTagged(ts), k);
    DirectTaggedAt(direct);
    TransitiveTaggedAt(ts);
  }

  /** Every occurrence of a key comes from an entry with that key. */
  lemma {:induction false} OccurrencesFrom(xs: seq<(string, Occurrence)>, k: string)
    ensures forall o :: o in OccurrencesOf(xs, k) ==> exists i :: 0 <= i < |xs| && xs[i] == (k, o)
  {
    if xs != [] {
      var init := xs[..|xs| - 1];
      OccurrencesFrom(init, k);
      assert forall i :: 0 <= i < |init| ==> init[i] == xs[i];
    }
  }
}
