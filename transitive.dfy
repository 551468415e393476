/** `_resolve_transitive_dependencies` and `_is_excluded`: the depth-bounded
    walk with a visited set shared by the whole walk. */
module Transitive {
  import opened Wrappers
  import opened Xml
  import opened FileTree
  import opened Pom
  import opened Analyzer

  /** One emitted entry: the sub-dependency, the key of the dependency it
      was found under, and the depth bound at which it was found. */
  datatype TransitiveDep = TransitiveDep(dep: Dependency, via: string, depth: int)

  /** The outcome of a walk: what it emits, the visited set afterwards, and
      the keys it added to that set, in order. */
  datatype WalkResult = WalkResult(found: seq<TransitiveDep>, visited: set<string>, marked: seq<string>)

  /** Where the walk finds a dependency's own direct dependencies. */
  type Lookup = Dependency -> Option<seq<Dependency>>

  /** The direct dependencies of a dependency's own POM, or `None` when its
      analysis gives an error or raises (a `None` version). */
  function SubDependencies(fs: Node, d: Dependency, fuel: nat): Option<seq<Dependency>> {
    match Describe(fs, Some(d.groupId), Some(d.artifactId), d.version, fuel)
    case Ok(desc) => Some(desc.direct)
    case Err(_) => None
  }

  /** The lookup of one analysis: `analyze_dependencies` on the repository
      `fs`, with parent chains bounded by `fuel`. A dependency without a
      version, or whose POM is missing or unreadable, has no sub-list; a
      readable one has the direct list of its own POM, read with its
      merged properties. */
  function RepositoryLookup(fs: Node, fuel: nat): (r: Lookup)
    ensures forall d: Dependency :: d.version.None? ==> r(d).None?
    ensures forall d: Dependency :: d.version.Some? && !Exists(fs, PomPath(d.groupId, d.artifactId, d.version.value)) ==> r(d).None?
    ensures forall d: Dependency :: ParsedPom(fs, Some(d.groupId), Some(d.artifactId), d.version).Err? ==> r(d).None?
    ensures forall d: Dependency :: ParsedPom(fs, Some(d.groupId), Some(d.artifactId), d.version).Ok? ==>
      var root := ParsedPom(fs, Some(d.groupId), Some(d.artifactId), d.version).value;
      r(d) == Some(DependenciesOf(ProjectDependencies(root), LocalProperties(root) + Inherited(fs, root, fuel)))
  {
    d => SubDependencies(fs, d, fuel)
  }

  /** The sub-dependencies not excluded by the expanding dependency, tagged
      with its key and the current depth bound, in order. */
  function Emit(subs: seq<Dependency>, exclusions: seq<Exclusion>, via: string, depth: int): seq<TransitiveDep> {
    if subs == [] then []
    else
      var init := Emit(subs[..|subs| - 1], exclusions, via, depth);
      var last := subs[|subs| - 1];
      if IsExcluded(last, exclusions) then init else init + [TransitiveDep(last, via, depth)]
  }

  /** Exactly the sub-dependencies no exclusion names are emitted, each
      tagged with the expanding key and depth. */
  lemma {:induction false} EmitExactly(subs: seq<Dependency>, exclusions: seq<Exclusion>, via: string, depth: int, t: TransitiveDep)
    ensures t in Emit(subs, exclusions, via, depth) <==>
      t.dep in subs && !IsExcluded(t.dep, exclusions) && t.via == via && t.depth == depth
  {
    if subs != [] {
      var init := subs[..|subs| - 1];
      EmitExactly(init, exclusions, via, depth, t);
      assert subs == init + [subs[|subs| - 1]];
    }
  }

  /** Emitting two runs of sub-dependencies gives the first run's entries
      followed by the second's: the order of the sub-list is kept. */
  lemma {:induction false} EmitAppend(xs: seq<Dependency>, ys: seq<Dependency>, exclusions: seq<Exclusion>, via: string, depth: int)
    ensures Emit(xs + ys, exclusions, via, depth) == Emit(xs, exclusions, via, depth) + Emit(ys, exclusions, via, depth)
    decreases |ys|
  {
    if ys == [] {
      assert xs + ys == xs;
    } else {
      var n := |ys| - 1;
      assert (xs + ys)[..|xs + ys| - 1] == xs + ys[..n];
      EmitAppend(xs, ys[..n], exclusions, via, depth);
    }
  }

  /** One sub-dependency is emitted once when not excluded, and not otherwise. */
  lemma EmitOne(s: Dependency, exclusions: seq<Exclusion>, via: string, depth: int)
    ensures Emit([s], exclusions, via, depth) == if IsExcluded(s, exclusions) then [] else [TransitiveDep(s, via, depth)]
  {
    assert [s][..0] == [];
  }

  /** An exclusion matches on group and artifact; the version plays no part. */
  lemma ExclusionIgnoresVersion(d: Dependency, exclusions: seq<Exclusion>, v: Option<string>)
    ensures IsExcluded(d, exclusions) == IsExcluded(d.(version := v), exclusions)
  {
  }

  /** The walk of `deps` at depth bound `depth`, from the visited set `v`. */
  function Walk(lookup: Lookup, deps: seq<Dependency>, depth: int, v: set<string>): WalkResult
    decreases if depth > 0 then depth else 0, 2, 0
  {
    if depth <= 0 then WalkResult([], v, [])
    else WalkList(lookup, deps, depth, v)
  }

  /** The loop over one level: each dependency in turn, the visited set
      threaded from one to the next. */
  function WalkList(lookup: Lookup, deps: seq<Dependency>, depth: int, v: set<string>): WalkResult
    requires depth > 0
    decreases depth, 1, |deps|
  {
    if deps == [] then WalkResult([], v, [])
    else
      var before := WalkList(lookup, deps[..|deps| - 1], depth, v);
      var last := Step(lookup, deps[|deps| - 1], depth, before.visited);
      WalkResult(before.found + last.found, last.visited, before.marked + last.marked)
  }

  /** One iteration: skip a visited or optional dependency; mark the rest
      visited; skip system scope; otherwise emit its non-excluded
      sub-dependencies, then walk all of them one level deeper. */
  function Step(lookup: Lookup, d: Dependency, depth: int, v: set<string>): WalkResult
    requires depth > 0
    decreases depth, 0, 0
  {
    var key := Key(d);
    if key in v || d.optional then WalkResult([], v, [])
    else
      var v1 := v + {key};
      if d.scope == "system" then WalkResult([], v1, [key])
      else match lookup(d)
        case None => WalkResult([], v1, [key])
        case Some(subs) =>
          var deeper := Walk(lookup, subs, depth - 1, v1);
          WalkResult(Emit(subs, ExclusionList(d), key, depth) + deeper.found, deeper.visited, [key] + deeper.marked)
  }

  /** What every walk keeps: the visited set grows by exactly the marked
      keys, no key is marked twice or was visited before, and every emitted
      entry carries a depth in 1..bound and the key of a dependency this
      walk expanded. */
  ghost predicate Sound(r: WalkResult, v: set<string>, depth: int) {
    (forall k :: k in r.visited <==> k in v || k in r.marked)
    && (forall i, j :: 0 <= i < j < |r.marked| ==> r.marked[i] != r.marked[j])
    && (forall i :: 0 <= i < |r.marked| ==> r.marked[i] !in v)
    && (forall i :: 0 <= i < |r.found| ==> 0 < r.found[i].depth <= depth && r.found[i].via in r.marked)
  }

  lemma Compose(r0: WalkResult, r1: WalkResult, v: set<string>, depth: int)
    requires Sound(r0, v, depth) && Sound(r1, r0.visited, depth)
    ensures Sound(WalkResult(r0.found + r1.found, r1.visited, r0.marked + r1.marked), v, depth)
  {
    var m := r0.marked + r1.marked;
    forall i, j | 0 <= i < j < |m| ensures m[i] != m[j] {
      if j < |r0.marked| {
      } else if i < |r0.marked| {
        assert m[i] in r0.visited && m[j] == r1.marked[j - |r0.marked|];
      }
    }
  }

  lemma {:induction false} WalkSound(lookup: Lookup, deps: seq<Dependency>, depth: int, v: set<string>)
    ensures Sound(Walk(lookup, deps, depth, v), v, depth)
    decreases if depth > 0 then depth else 0, 2, 0
  {
    if depth > 0 {
      WalkListSound(lookup, deps, depth, v);
    }
  }

  lemma {:induction false} WalkListSound(lookup: Lookup, deps: seq<Dependency>, depth: int, v: set<string>)
    requires depth > 0
    ensures Sound(WalkList(lookup, deps, depth, v), v, depth)
    decreases depth, 1, |deps|
  {
    if deps != [] {
      var before := WalkList(lookup, deps[..|deps| - 1], depth, v);
      WalkListSound(lookup, deps[..|deps| - 1], depth, v);
      StepSound(lookup, deps[|deps| - 1], depth, before.visited);
      Compose(before, Step(lookup, deps[|deps| - 1], depth, before.visited), v, depth);
    }
  }

  lemma {:induction false} StepSound(lookup: Lookup, d: Dependency, depth: int, v: set<string>)
    requires depth > 0
    ensures Sound(Step(lookup, d, depth, v), v, depth)
    decreases depth, 0, 1
  {
    if Key(d) in v || d.optional || d.scope == "system" || lookup(d).None? {
      StepLeafSound(lookup, d, depth, v);
    } else {
      StepExpandSound(lookup, d, depth, v);
    }
  }

  lemma StepLeafSound(lookup: Lookup, d: Dependency, depth: int, v: set<string>)
    requires depth > 0
    requires Key(d) in v || d.optional || d.scope == "system" || lookup(d).None?
    ensures Sound(Step(lookup, d, depth, v), v, depth)
  {
    if !(Key(d) in v || d.optional) {
      assert Step(lookup, d, depth, v) == WalkResult([], v + {Key(d)}, [Key(d)]);
    }
  }

  lemma {:induction false} StepExpandSound(lookup: Lookup, d: Dependency, depth: int, v: set<string>)
    requires depth > 0
    requires Key(d) !in v && !d.optional && d.scope != "system" && lookup(d).Some?
    ensures Sound(Step(lookup, d, depth, v), v, depth)
    decreases depth, 0, 0
  {
    var key := Key(d);
    var subs := lookup(d).value;
    var v1 := v + {key};
    var deeper := Walk(lookup, subs, depth - 1, v1);
    var emitted := Emit(subs, ExclusionList(d), key, depth);
    assert Step(lookup, d, depth, v) == WalkResult(emitted + deeper.found, deeper.visited, [key] + deeper.marked);
    WalkSound(lookup, subs, depth - 1, v1);
    forall i | 0 <= i < |emitted| ensures emitted[i].depth == depth && emitted[i].via == key {
      EmitExactly(subs, ExclusionList(d), key, depth, emitted[i]);
    }
    Expand(emitted, deeper, key, v, depth);
  }

  /** Expanding `key`: its emitted entries, then the deeper walk started
      with `key` marked. */
  lemma Expand(emitted: seq<TransitiveDep>, deeper: WalkResult, key: string, v: set<string>, depth: int)
    requires key !in v && depth > 0
    requires forall i :: 0 <= i < |emitted| ==> emitted[i].depth == depth && emitted[i].via == key
    requires Sound(deeper, v + {key}, depth - 1)
    ensures Sound(WalkResult(emitted + deeper.found, deeper.visited, [key] + deeper.marked), v, depth)
  {
    var r := WalkResult(emitted + deeper.found, deeper.visited, [key] + deeper.marked);
    forall i | 0 <= i < |r.found| ensures 0 < r.found[i].depth <= depth && r.found[i].via in r.marked {
      if i >= |emitted| {
        assert r.found[i] == deeper.found[i - |emitted|];
      }
    }
    forall i, j | 0 <= i < j < |r.marked| ensures r.marked[i] != r.marked[j] {
      if i > 0 {
        assert r.marked[i] == deeper.marked[i - 1];
      }
      assert r.marked[j] == deeper.marked[j - 1];
    }
  }

  /** An emitted entry is a sub-dependency, found by the lookup, of a
      non-optional, non-system dependency whose key it carries, and none of
      that dependency's exclusions names it. */
  ghost predicate Introduced(lookup: Lookup, t: TransitiveDep) {
    exists d :: Key(d) == t.via && !d.optional && d.scope != "system" && lookup(d).Some?
      && t.dep in lookup(d).value && !IsExcluded(t.dep, ExclusionList(d))
  }

  ghost predicate AllIntroduced(lookup: Lookup, found: seq<TransitiveDep>) {
    forall i :: 0 <= i < |found| ==> Introduced(lookup, found[i])
  }

  lemma IntroducedAppend(lookup: Lookup, a: seq<TransitiveDep>, b: seq<TransitiveDep>)
    requires AllIntroduced(lookup, a) && AllIntroduced(lookup, b)
    ensures AllIntroduced(lookup, a + b)
  {
    forall i | 0 <= i < |a + b| ensures Introduced(lookup, (a + b)[i]) {
      if i >= |a| {
        assert (a + b)[i] == b[i - |a|];
      }
    }
  }

  /** Every entry the walk emits, at any depth, was introduced by a
      dependency the walk expanded. */
  lemma {:induction false} WalkIntroduced(lookup: Lookup, deps: seq<Dependency>, depth: int, v: set<string>)
    ensures AllIntroduced(lookup, Walk(lookup, deps, depth, v).found)
    decreases if depth > 0 then depth else 0, 2, 0
  {
    if depth > 0 {
      WalkListIntroduced(lookup, deps, depth, v);
    }
  }

  lemma {:induction false} WalkListIntroduced(lookup: Lookup, deps: seq<Dependency>, depth: int, v: set<string>)
    requires depth > 0
    ensures AllIntroduced(lookup, WalkList(lookup, deps, depth, v).found)
    decreases depth, 1, |deps|
  {
    if deps != [] {
      var before := WalkList(lookup, deps[..|deps| - 1], depth, v);
      WalkListIntroduced(lookup, deps[..|deps| - 1], depth, v);
      StepIntroduced(lookup, deps[|deps| - 1], depth, before.visited);
      IntroducedAppend(lookup, before.found, Step(lookup, deps[|deps| - 1], depth, before.visited).found);
    }
  }

  lemma {:induction false} StepIntroduced(lookup: Lookup, d: Dependency, depth: int, v: set<string>)
    requires depth > 0
    ensures AllIntroduced(lookup, Step(lookup, d, depth, v).found)
    decreases depth, 0, 0
  {
    if Key(d) !in v && !d.optional && d.scope != "system" && lookup(d).Some? {
      var key := Key(d);
      var subs := lookup(d).value;
      var deeper := Walk(lookup, subs, depth - 1, v + {key});
      var emitted := Emit(subs, ExclusionList(d), key, depth);
      assert Step(lookup, d, depth, v).found == emitted + deeper.found;
      forall i | 0 <= i < |emitted| ensures Introduced(lookup, emitted[i]) {
        EmitExactly(subs, ExclusionList(d), key, depth, emitted[i]);
        assert Key(d) == emitted[i].via;
      }
      WalkIntroduced(lookup, subs, depth - 1, v + {key});
      IntroducedAppend(lookup, emitted, deeper.found);
    }
  }

  /** The set the walk ends with contains the one it started with. */
  lemma VisitedGrows(lookup: Lookup, deps: seq<Dependency>, depth: int, v: set<string>)
    ensures v <= Walk(lookup, deps, depth, v).visited
  {
    WalkSound(lookup, deps, depth, v);
  }

  /** Each key is expanded at most once in the whole walk, and never one
      that was visited before it started. */
  lemma ExpandedOnce(lookup: Lookup, deps: seq<Dependency>, depth: int, v: set<string>, i: nat, j: nat)
    requires var m := Walk(lookup, deps, depth, v).marked; i < j < |m|
    ensures var m := Walk(lookup, deps, depth, v).marked; m[i] != m[j] && m[i] !in v
  {
    WalkSound(lookup, deps, depth, v);
  }

  /** A depth bound of zero or less gives nothing and marks nothing. */
  lemma NoDepthNoWalk(lookup: Lookup, deps: seq<Dependency>, depth: int, v: set<string>)
    requires depth <= 0
    ensures Walk(lookup, deps, depth, v) == WalkResult([], v, [])
  {
  }

  /** An optional dependency is skipped without being marked. */
  lemma OptionalSkippedUnmarked(lookup: Lookup, d: Dependency, depth: int, v: set<string>)
    requires depth > 0 && d.optional
    ensures Step(lookup, d, depth, v) == WalkResult([], v, [])
  {
  }

  /** A system-scope dependency not yet visited is marked but not expanded. */
  lemma SystemMarkedNotExpanded(lookup: Lookup, d: Dependency, depth: int, v: set<string>)
    requires depth > 0 && !d.optional && d.scope == "system" && Key(d) !in v
    ensures Step(lookup, d, depth, v) == WalkResult([], v + {Key(d)}, [Key(d)])
  {
  }

  /** Every non-optional dependency of a level ends up visited. */
  lemma {:induction false} NonOptionalMarked(lookup: Lookup, deps: seq<Dependency>, depth: int, v: set<string>, i: nat)
    requires depth > 0 && i < |deps| && !deps[i].optional
    ensures Key(deps[i]) in WalkList(lookup, deps, depth, v).visited
    decreases |deps|
  {
    var init := deps[..|deps| - 1];
    var before := WalkList(lookup, init, depth, v);
    var last := Step(lookup, deps[|deps| - 1], depth, before.visited);
    StepSound(lookup, deps[|deps| - 1], depth, before.visited);
    if i < |deps| - 1 {
      NonOptionalMarked(lookup, init, depth, v, i);
      assert init[i] == deps[i];
    }
    assert before.visited <= last.visited;
  }

  /** Exclusions only filter what is emitted: an excluded, non-optional
      sub-dependency is not emitted at this level, yet it is still walked
      one level deeper and so ends up visited. */
  lemma ExcludedStillWalked(lookup: Lookup, d: Dependency, depth: int, v: set<string>, subs: seq<Dependency>, i: nat)
    requires depth > 1 && Key(d) !in v && !d.optional && d.scope != "system"
    requires lookup(d) == Some(subs) && i < |subs| && !subs[i].optional
    requires IsExcluded(subs[i], ExclusionList(d))
    ensures Key(subs[i]) in Step(lookup, d, depth, v).visited
    ensures TransitiveDep(subs[i], Key(d), depth) !in Step(lookup, d, depth, v).found
  {
    NonOptionalMarked(lookup, subs, depth - 1, v + {Key(d)}, i);
    var t := TransitiveDep(subs[i], Key(d), depth);
    EmitExactly(subs, ExclusionList(d), Key(d), depth, t);
    var deeper := Walk(lookup, subs, depth - 1, v + {Key(d)});
    WalkSound(lookup, subs, depth - 1, v + {Key(d)});
    assert forall k :: 0 <= k < |deeper.found| ==> deeper.found[k].depth < depth;
  }

  /** Optional sub-dependencies are emitted like any other: the optional
      filter applies to the dependencies being expanded, not to what they
      bring in. */
  lemma OptionalSubDependencyEmitted(lookup: Lookup, d: Dependency, depth: int, v: set<string>, subs: seq<Dependency>, s: Dependency)
    requires depth > 0 && Key(d) !in v && !d.optional && d.scope != "system"
    requires lookup(d) == Some(subs) && s in subs && s.optional
    requires !IsExcluded(s, ExclusionList(d))
    ensures TransitiveDep(s, Key(d), depth) in Step(lookup, d, depth, v).found
  {
    EmitExactly(subs, ExclusionList(d), Key(d), depth, TransitiveDep(s, Key(d), depth));
  }

  /** The loop over one level, one dependency further. */
  lemma WalkListNext(lookup: Lookup, deps: seq<Dependency>, i: nat, depth: int, v: set<string>)
    requires i < |deps| && depth > 0
    ensures var before := WalkList(lookup, deps[..i], depth, v);
      var step := Step(lookup, deps[i], depth, before.visited);
      WalkList(lookup, deps[..i + 1], depth, v) == WalkResult(before.found + step.found, step.visited, before.marked + step.marked)
  {
    assert deps[..i + 1][..i] == deps[..i];
  }

  /** The walker of one analysis: where it looks up sub-dependencies and
      the visited set shared by every level. */
  class Resolver {
    const lookup: Lookup
    var visited: set<string>

    constructor(lookup: Lookup)
      ensures this.lookup == lookup && visited == {}
    {
      this.lookup := lookup;
      visited := {};
    }

    /** `_resolve_transitive_dependencies(direct_deps, max_depth, visited)`. */
    method Resolve(deps: seq<Dependency>, maxDepth: int) returns (transitive: seq<TransitiveDep>)
      modifies this
      ensures transitive == Walk(lookup, deps, maxDepth, old(visited)).found
      ensures visited == Walk(lookup, deps, maxDepth, old(visited)).visited
      decreases if maxDepth > 0 then maxDepth else 0, 1
    {
      if maxDepth <= 0 {
        return [];
      }
      transitive := [];
      var i := 0;
      while i < |deps|
        invariant 0 <= i <= |deps|
        invariant transitive == WalkList(lookup, deps[..i], maxDepth, old(visited)).found
        invariant visited == WalkList(lookup, deps[..i], maxDepth, old(visited)).visited
      {
        WalkListNext(lookup, deps, i, maxDepth, old(visited));
        var found := Visit(deps[i], maxDepth);
        transitive := transitive + found;
        i := i + 1;
      }
      assert deps[..i] == deps;
    }

    /** One iteration of the loop in `_resolve_transitive_dependencies`
        (`continue` is an early return here). */
    method Visit(d: Dependency, maxDepth: int) returns (found: seq<TransitiveDep>)
      requires maxDepth > 0
      modifies this
      ensures found == Step(lookup, d, maxDepth, old(visited)).found
      ensures visited == Step(lookup, d, maxDepth, old(visited)).visited
      decreases maxDepth, 0
    {
      var key := Key(d);
      if key in visited || d.optional {
        return [];
      }
      visited := visited + {key};
      if d.scope == "system" {
        return [];
      }
      var sub := lookup(d);
      found := [];
      if sub.Some? {
        var emitted := Emit(sub.value, ExclusionList(d), key, maxDepth);
        var deeper := Resolve(sub.value, maxDepth - 1);
        found := emitted + deeper;
      }
    }
  }
}
