/** `analyze_dependencies` and `find_dependency_tree`: the descriptor, the
    transitive walk on request, the conflicts, and the tree. */
module Engine {
  import opened Wrappers
  import opened FileTree
  import opened Pom
  import opened Analyzer
  import opened Transitive
  import opened Conflicts
  import opened Tree

  /** The full analysis record. */
  datatype Analysis = Analysis(descriptor: Descriptor, transitive: seq<TransitiveDep>, conflicts: seq<Conflict>)

  /** `find_dependency_tree`'s record: the root coordinate and the tree. */
  datatype DependencyTree = DependencyTree(root: string, dependencies: seq<TreeNode>)

  /** The depth bound `find_dependency_tree` uses (the default `max_depth`). */
  const DefaultMaxDepth := 3

  /** `analyze_dependencies(group, artifact, version, include_transitive, max_depth)`
      on the repository `repository`; `fuel` bounds parent chains. The walk
      starts from an empty visited set. */
  method AnalyzeDependencies(repository: Node, g: string, a: string, v: string,
                             includeTransitive: bool, maxDepth: int, fuel: nat)
    returns (r: Result<Analysis, AnalyzeError>)
    ensures r.Err? <==> ParsedPom(repository, Some(g), Some(a), Some(v)).Err?
    ensures r.Ok? ==> r.value.descriptor == Describe(repository, Some(g), Some(a), Some(v), fuel).value
    ensures r.Ok? ==> (r.value.transitive ==
      if includeTransitive then Walk(RepositoryLookup(repository, fuel), r.value.descriptor.direct, maxDepth, {}).found else [])
    ensures r.Ok? ==> r.value.conflicts == ConflictsOf(r.value.descriptor.direct, r.value.transitive)
  {
    var described := Describe(repository, Some(g), Some(a), Some(v), fuel);
    if described.Err? {
      return Err(described.error);
    }
    var descriptor := described.value;
    var transitive: seq<TransitiveDep> := [];
    if includeTransitive {
      var resolver := new Resolver(RepositoryLookup(repository, fuel));
      transitive := resolver.Resolve(descriptor.direct, maxDepth);
    }
    var conflicts := AnalyzeConflicts(descriptor.direct, transitive);
    r := Ok(Analysis(descriptor, transitive, conflicts));
  }

  /** `find_dependency_tree(group, artifact, version)`: an error analysis is
      passed through; otherwise one node per direct dependency with the
      transitive entries found under it. */
  method FindDependencyTree(repository: Node, g: string, a: string, v: string, fuel: nat)
    returns (r: Result<DependencyTree, AnalyzeError>)
    ensures r.Err? <==> ParsedPom(repository, Some(g), Some(a), Some(v)).Err?
    ensures r.Ok? ==>
      var d := Describe(repository, Some(g), Some(a), Some(v), fuel).value;
      r.value == DependencyTree(Coordinate(g, a, v),
        TreeOf(d.direct, Walk(RepositoryLookup(repository, fuel), d.direct, DefaultMaxDepth, {}).found))
  {
    var analysis := AnalyzeDependencies(repository, g, a, v, true, DefaultMaxDepth, fuel);
    if analysis.Err? {
      return Err(analysis.error);
    }
    var tree := BuildTreeStructure(analysis.value.descriptor.direct, analysis.value.transitive);
    r := Ok(DependencyTree(Coordinate(g, a, v), tree));
  }
}
