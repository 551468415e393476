# maven-decoder-mcp: dependency analysis over a local Maven repository

This project models, in Dafny, the core of the maven-decoder-mcp server. The
server answers questions about the artifacts in a local Maven repository
(`~/.m2/repository`) without network access. The model covers:

- **POM reading** (`maven_analyzer.py`): locating the POM of a
  `group:artifact:version` coordinate; stripping XML namespaces; `${name}`
  property substitution; dependency entries with their scope, type,
  optional flag, classifier and exclusions; the properties, modules and
  parent reference; and the merge of the parent's properties.
- **Transitive walk** (`maven_analyzer.py`): the depth-bounded walk over
  each dependency's own POM. A `visited` set shared by reference protects
  against cycles. The walk skips optional and system-scope dependencies and
  filters sub-dependencies by exclusions.
- **Reports over the walk** (`maven_analyzer.py`): the conflict report
  (more than one version of one `group:artifact`); the dependency tree; the
  version listing of an artifact; the scan for dependents; and the recovery
  of a coordinate from a POM path.
- **Jar metadata** (`decompiler.py`): the manifest parser with
  continuation lines; the class-file header (magic number, minor and major
  version) and the table of Java releases; and the jar-structure summary
  (entry counts, packages, services).
- **Name and path helpers** (`maven_decoder_server.py`): the artifact
  listing with its filters and limit; group ids from paths; main and
  sources jar lookup; package and resource-kind counters; the simple
  manifest reader; the class difference between two versions; and class
  names and records.

The repository is a tree of named nodes (`FileTree.Node`). A file's content
is what `ET.parse` makes of it: an element tree, or a parse error. Paths are
sequences of parts relative to the repository root, as `pathlib` keeps them.
A jar is its entry names in archive order plus the decoded text of the
entries that can be read. Python dictionaries that count keep their keys in
insertion order (`Counters.Counter`). Sorting is an ordered permutation under
Python's string order (`Ordering`).

Where the methods of the source mutate state, the model keeps that form:
- `Transitive.Resolver` is a class whose `visited` field the walk updates.
- The loops of `_analyze_conflicts`, `_build_tree_structure`,
  `get_version_info`, `find_dependents`, `_list_artifacts`,
  `analyze_jar_structure`, both manifest parsers, `_extract_packages` and
  `_categorize_resources` are methods with loop invariants.

Each such method is proved equal to a specification function. The lemmas
beside that function state what the source promises.

Some behaviours of the code are easy to misread; the model states them as
the code has them:
- **Parent properties win.** The parent's properties override the child's
  on a shared key (`result["properties"].update(parent_props)`). This is
  the reverse of Maven's own property inheritance, where a child POM's
  value overrides the one it inherits.
- **Missing version gives `None`.** The identity key of a dependency without
  a version ends in `None`, not `unknown`: every extracted entry has a
  `version` key, so `dep.get('version', 'unknown')` never falls back.
- **Optional sub-dependencies are emitted.** They appear among the
  transitive dependencies; only their own expansion is skipped.
- **Excluded sub-dependencies are still walked.** Exclusions filter only
  what is emitted at one level. An excluded, non-optional sub-dependency is
  still walked one level deeper, and its key is marked visited.
- **Every `.pom` file is scanned.** `find_dependents` matches every
  `dependency` element below the root, managed ones included, of every file
  whose name ends in `.pom`.

Two places where the code evidently departs from its intent (the
`.//dependencies` lookup and the `.class` replacement) are listed under
"## Findings". Each has a member modelling the code as written. The rest of
the model uses the corrected member, as stated under "## Left out".

## Model

| member | source | states |
|---|---|---|
| Analyzer.GetPomPath | maven_decoder_mcp/maven_analyzer.py:109-113 | a path is returned exactly when something exists at `group-as-dirs/artifact/version/artifact-version.pom`, and it is that path |
| Analyzer.LoadPom | maven_decoder_mcp/maven_analyzer.py:35-39 | reading fails with the parse error exactly when nothing XML is at the path, and otherwise with the namespace error exactly when some tag cannot be stripped; a readable POM is read as its namespace-free tree |
| Analyzer.ParsedPomErrors | maven_decoder_mcp/maven_analyzer.py:29-32 | a `None` coordinate part raises; otherwise "POM not found" with the `g:a:v` text is reported exactly when no POM exists at the path |
| Analyzer.Build | maven_decoder_mcp/maven_analyzer.py:51-69 | the merged properties hold exactly the keys declared locally or by the parent, and on every key the parent declares the parent's value |
| Analyzer.DescribeRead | maven_decoder_mcp/maven_analyzer.py:25-92 | a readable POM yields the descriptor built from its root and its parent's contribution |
| Analyzer.ParentOverridesChild | maven_decoder_mcp/maven_analyzer.py:57-69 | on a shared key the parent's merged value wins; a key only the child declares keeps the child's value; no other key appears |
| Analyzer.UnreadableParentContributesNothing | maven_decoder_mcp/maven_analyzer.py:181-192 | a missing parent element, or a parent whose analysis fails, leaves exactly the local properties |
| Analyzer.FuelIndependent | maven_decoder_mcp/maven_analyzer.py:181-192 | when the parent chain ends, the analysis does not depend on the recursion bound |
| Analyzer.DescribeUnread | maven_decoder_mcp/maven_analyzer.py:29-32 | an unreadable POM gives that same error as the analysis result |
| Analyzer.NoParentInherits | maven_decoder_mcp/maven_analyzer.py:57-59 | without a `parent` element nothing is inherited |
| Analyzer.ArtifactFromPomPath | maven_decoder_mcp/maven_analyzer.py:417-437 | a coordinate is read exactly from paths with at least three parts; the artifact and the version are the third- and second-to-last parts |
| Analyzer.PomPathRoundTrip | maven_decoder_mcp/maven_analyzer.py:417-437 | the POM path of a coordinate leads back to that coordinate |
| Analyzer.VersionFileRoundTrip | maven_decoder_mcp/maven_analyzer.py:417-437 | any file inside a version directory leads back to that version's coordinate |
| Analyzer.FileUnderVersion | maven_decoder_mcp/maven_analyzer.py:423-433 | the group is the leading parts joined with '.' |
| Analyzer.GroupSegments | maven_decoder_mcp/maven_analyzer.py:111 | a group's directories are its dot-separated pieces |
| Analyzer.ManagedListShadowsDirect | maven_decoder_mcp/maven_analyzer.py:72 | `.//dependencies` finds a managed list placed before the project's own list, not the project's own list |
| Analyzer.ProjectDependenciesFound | maven_decoder_mcp/maven_analyzer.py:72 | the corrected lookup finds the project's own `dependencies` child wherever the other children sit |
| Pom.Placeholder | maven_decoder_mcp/maven_analyzer.py:173 | a placeholder name is non-empty, holds no '}', and `${name}` starts the text |
| Pom.SubstituteLiteral | maven_decoder_mcp/maven_analyzer.py:167-179 | text without '$' passes through substitution unchanged in front of the rest |
| Pom.ResolveLiteral | maven_decoder_mcp/maven_analyzer.py:167-179 | a value without '$' is not changed |
| Pom.PlaceholderReplaced | maven_decoder_mcp/maven_analyzer.py:175-179 | `${name}` becomes the property's stored value verbatim, so a stored value holding `${...}` is not expanded again (one pass); an unknown name stays as written; the rest is resolved independently |
| Pom.ResolveWithoutProperties | maven_decoder_mcp/maven_analyzer.py:167-179 | with no properties every string is unchanged |
| Pom.WholePlaceholder | maven_decoder_mcp/maven_analyzer.py:175-177 | a value that is one placeholder becomes the property's stored value verbatim (not expanded again), or stays as written when the name is unknown |
| Pom.ExclusionsIn | maven_decoder_mcp/maven_analyzer.py:156-163 | every kept exclusion names a non-empty group and a non-empty artifact |
| Pom.ExclusionsInExactly | maven_decoder_mcp/maven_analyzer.py:156-163 | an exclusion is kept exactly when some `exclusion` element has it as a non-empty group and non-empty artifact |
| Pom.ExclusionsAppend | maven_decoder_mcp/maven_analyzer.py:156-163 | the exclusions of two runs of elements are the first run's followed by the second's, so document order is kept |
| Pom.ExtractDependency | maven_decoder_mcp/maven_analyzer.py:127-165 | no entry exactly when group or artifact text is missing or empty; scope defaults to compile, type to jar; optional exactly on the text `true`; a version is kept exactly when one is present |
| Pom.ExtractedFields | maven_decoder_mcp/maven_analyzer.py:127-165 | an extracted entry holds the group and artifact resolved against the table, the version resolved when present and non-empty (kept as written otherwise), the scope and type as written when non-empty, the classifier as written, and the exclusions exactly when an `exclusions` element is present |
| Pom.SubstitutionOnlyInCoordinates | maven_decoder_mcp/maven_analyzer.py:137-150 | the property table affects only group, artifact and version |
| Pom.ExtractWithoutProperties | maven_decoder_mcp/maven_analyzer.py:137-145 | with an empty table the coordinates are the raw texts |
| Pom.DependenciesIn | maven_decoder_mcp/maven_analyzer.py:73-77 | the extracted list is no longer than the `dependency` elements |
| Pom.DependenciesInExactly | maven_decoder_mcp/maven_analyzer.py:73-77 | an entry is listed exactly when some `dependency` element extracts to it |
| Pom.DependenciesAppend | maven_decoder_mcp/maven_analyzer.py:73-77 | the entries of two runs of elements are those of the first run followed by those of the second, so the list keeps document order |
| Pom.PropertiesIn | maven_decoder_mcp/maven_analyzer.py:51-55 | the table's keys are exactly the tags of the property elements |
| Pom.LastPropertyWins | maven_decoder_mcp/maven_analyzer.py:53-55 | a repeated property keeps its last text, `""` when it has none |
| Pom.ModulesIn | maven_decoder_mcp/maven_analyzer.py:87-92 | only non-empty module texts are listed |
| Pom.ModulesInExactly | maven_decoder_mcp/maven_analyzer.py:87-92 | a module name is listed exactly when some `module` element has it as non-empty text |
| Pom.ModulesAppend | maven_decoder_mcp/maven_analyzer.py:87-92 | the modules of two runs of elements are the first run's followed by the second's, so document order is kept |
| Xml.FirstTagged | maven_decoder_mcp/maven_analyzer.py:122-125 | `find` returns an element with the tag from among the children, and none exactly when no child has it |
| Xml.AllTagged | maven_decoder_mcp/maven_analyzer.py:74 | `findall` returns exactly the children with the tag |
| Xml.AllTaggedAppend | maven_decoder_mcp/maven_analyzer.py:74 | `findall` over two runs of children gives the first run's matches followed by the second's |
| Xml.AllTaggedOne | maven_decoder_mcp/maven_analyzer.py:74 | one child is matched once when it has the tag and not otherwise, so with the append lemma `findall` keeps document order and repeats |
| Xml.ChildrenAreDescendants | maven_decoder_mcp/maven_analyzer.py:52 | every child is among the elements `.//` searches |
| Xml.ClarkTag | maven_decoder_mcp/maven_analyzer.py:117-118 | `{uri}local` becomes `local` |
| Xml.RemoveNamespaceSucceeds | maven_decoder_mcp/maven_analyzer.py:115-120 | namespace stripping fails exactly when some tag starts with '{' and has no '}' |
| Xml.RemoveNamespacePlain | maven_decoder_mcp/maven_analyzer.py:115-120 | a tree without namespaces is unchanged |
| Transitive.RepositoryLookup | maven_decoder_mcp/maven_analyzer.py:216-221 | a dependency without a version, or whose POM is missing or unreadable, has no sub-list; a readable one has the direct list of its own POM, read with its merged properties |
| Transitive.EmitExactly | maven_decoder_mcp/maven_analyzer.py:223-231 | exactly the sub-dependencies no exclusion names are emitted, tagged with the expanding key and the current depth |
| Transitive.EmitAppend | maven_decoder_mcp/maven_analyzer.py:224-231 | emitting two runs of sub-dependencies gives the first run's entries followed by the second's |
| Transitive.EmitOne | maven_decoder_mcp/maven_analyzer.py:224-231 | one sub-dependency is emitted once when not excluded and not otherwise, so emission keeps the order of the sub-list |
| Transitive.ExclusionIgnoresVersion | maven_decoder_mcp/maven_analyzer.py:246-252 | an exclusion matches on group and artifact, whatever the version |
| Transitive.WalkSound | maven_decoder_mcp/maven_analyzer.py:194-244 | the visited set grows by exactly the expanded keys, each new and distinct; every emitted entry has a depth between 1 and the bound and carries the key of a dependency this walk expanded |
| Transitive.WalkIntroduced | maven_decoder_mcp/maven_analyzer.py:223-231 | every emitted entry, at any depth, is a sub-dependency found by the lookup of a non-optional, non-system dependency whose key it carries, and not named by that dependency's exclusions |
| Transitive.VisitedGrows | maven_decoder_mcp/maven_analyzer.py:208 | the visited set only grows |
| Transitive.ExpandedOnce | maven_decoder_mcp/maven_analyzer.py:205-208 | no key is expanded twice, and none already visited is expanded |
| Transitive.NoDepthNoWalk | maven_decoder_mcp/maven_analyzer.py:197-198 | a depth bound of zero or less gives nothing and changes nothing |
| Transitive.OptionalSkippedUnmarked | maven_decoder_mcp/maven_analyzer.py:205-206 | an optional dependency is skipped without being marked visited |
| Transitive.SystemMarkedNotExpanded | maven_decoder_mcp/maven_analyzer.py:208-212 | a new system-scope dependency is marked visited but not expanded |
| Transitive.NonOptionalMarked | maven_decoder_mcp/maven_analyzer.py:203-208 | every non-optional dependency of a level ends up visited |
| Transitive.ExcludedStillWalked | maven_decoder_mcp/maven_analyzer.py:234-239 | an excluded sub-dependency is not emitted but is still walked one level deeper |
| Transitive.OptionalSubDependencyEmitted | maven_decoder_mcp/maven_analyzer.py:223-231 | an optional sub-dependency not excluded is emitted |
| Transitive.WalkListNext | maven_decoder_mcp/maven_analyzer.py:202-208 | each loop iteration continues from the visited set the previous one left |
| Transitive.Resolver.constructor | maven_decoder_mcp/maven_analyzer.py:94-98 | a walk starts from an empty visited set |
| Transitive.Resolver.Resolve | maven_decoder_mcp/maven_analyzer.py:194-244 | the entries returned and the visited set left are those of the walk function |
| Transitive.Resolver.Visit | maven_decoder_mcp/maven_analyzer.py:203-242 | one loop iteration returns and marks what the step function does |
| Conflicts.KeysInOrderExactly | maven_decoder_mcp/maven_analyzer.py:259-282 | the dict lists each `group:artifact` that occurs once, in order of first occurrence |
| Conflicts.DirectTaggedAt | maven_decoder_mcp/maven_analyzer.py:262-270 | every direct dependency gives one occurrence with origin direct |
| Conflicts.TransitiveTaggedAt | maven_decoder_mcp/maven_analyzer.py:273-282 | every transitive entry gives one occurrence with origin transitive via its key |
| Conflicts.Recorded | maven_decoder_mcp/maven_analyzer.py:264-270 | appending an occurrence under its key keeps the dict equal to the grouping of everything seen |
| Conflicts.AnalyzeConflicts | maven_decoder_mcp/maven_analyzer.py:254-294 | the loops compute the conflict list of the specification |
| Conflicts.ConflictsExactly | maven_decoder_mcp/maven_analyzer.py:284-292 | a conflict is reported exactly for each `group:artifact` with more than one distinct non-empty version, with those versions and all its occurrences, at most once per key |
| Conflicts.ConflictsDistinct | maven_decoder_mcp/maven_analyzer.py:285 | no artifact is reported twice |
| Conflicts.DirectSourcesFirst | maven_decoder_mcp/maven_analyzer.py:262-282 | a conflict's sources list the direct occurrences before the transitive ones |
| Conflicts.OccurrencesFrom | maven_decoder_mcp/maven_analyzer.py:266-282 | every occurrence comes from an entry with that key |
| Tree.BuildTreeStructure | maven_decoder_mcp/maven_analyzer.py:316-339 | the loops compute the tree of the specification |
| Tree.ChildrenExactly | maven_decoder_mcp/maven_analyzer.py:322-328 | the children under a key are exactly the transitive entries found via that key |
| Tree.ChildrenInOrder | maven_decoder_mcp/maven_analyzer.py:323-328 | children keep the order of the transitive list |
| Tree.TreeShape | maven_decoder_mcp/maven_analyzer.py:331-337 | one node per direct dependency, in order, each holding the entries found via its key |
| Tree.InTree | maven_decoder_mcp/maven_analyzer.py:316-339 | an entry appears in the tree exactly when its `via` is the key of some direct dependency |
| Engine.AnalyzeDependencies | maven_decoder_mcp/maven_analyzer.py:25-107 | errors exactly when the POM cannot be read; otherwise the descriptor, the walk's entries when requested (empty otherwise) and the conflicts over both |
| Engine.FindDependencyTree | maven_decoder_mcp/maven_analyzer.py:296-314 | an analysis error is passed on; otherwise the root coordinate and the tree of the depth-3 walk |
| Catalog.GetVersionInfo | maven_decoder_mcp/maven_analyzer.py:341-379 | the loop computes the version report of the specification |
| Catalog.VersionReportSorted | maven_decoder_mcp/maven_analyzer.py:370-378 | the report is a permutation of the version directories' records, sorted by name in descending order, and the total is its length |
| Catalog.VersionsExactly | maven_decoder_mcp/maven_analyzer.py:350-370 | a record exists exactly for each directory entry of the artifact |
| Catalog.FindDependents | maven_decoder_mcp/maven_analyzer.py:381-415 | the loops compute the dependents of the specification, over every `*.pom` of the scan |
| Catalog.CollectDependents | maven_decoder_mcp/maven_analyzer.py:396-410 | the inner loop collects the matching entries of one POM |
| Catalog.DependentsInExactly | maven_decoder_mcp/maven_analyzer.py:396-410 | one POM gives a dependent exactly for each matching `dependency` element, when its path has a coordinate |
| Catalog.DependentsMatch | maven_decoder_mcp/maven_analyzer.py:401-410 | every dependent comes from a `dependency` element of a POM that parsed whose group and artifact are the target's (and whose version is the searched one when given), asks for the searched version when one is given, and carries the coordinate of its path |
| FileTree.Segments | maven_decoder_mcp/maven_analyzer.py:112 | pathlib keeps only non-empty parts other than `.` |
| FileTree.SegmentsOfPart | maven_decoder_mcp/maven_analyzer.py:112 | a valid name is a one-part path |
| FileTree.ChildNamed | maven_decoder_mcp/maven_analyzer.py:113 | a child with the name is found exactly when one exists |
| FileTree.Matching | maven_decoder_mcp/maven_analyzer.py:388 | `rglob` yields entries whose names end with the pattern's suffix, one level below their directory |
| Decompiler.ManifestLine | maven_decoder_mcp/decompiler.py:318-327 | after each line the current key has an entry to continue |
| Decompiler.ParseManifest | maven_decoder_mcp/decompiler.py:313-329 | the loop computes the manifest of the specification |
| Decompiler.AttributeLine | maven_decoder_mcp/decompiler.py:324-327 | a `key:value` line that is not a continuation sets the stripped key to the stripped value and makes it current |
| Decompiler.ContinuationLine | maven_decoder_mcp/decompiler.py:321-323 | a line starting with a space continues the current value, minus the space |
| Decompiler.IgnoredLine | maven_decoder_mcp/decompiler.py:318-327 | any other line changes nothing |
| Decompiler.ContinuedValue | maven_decoder_mcp/decompiler.py:313-329 | a header written over several continuation lines reads back as its value followed by every piece |
| Decompiler.HeaderLine | maven_decoder_mcp/decompiler.py:324-327 | a `Name: value` line reads back as that name and value |
| Decompiler.ReleaseNumbering | maven_decoder_mcp/decompiler.py:231-256 | majors 45 to 48 are `1.1` to `1.4`; 49 to 65 are `5` to `21`; every other major is unknown |
| Decompiler.ClassFileVersion | maven_decoder_mcp/decompiler.py:208-211 | versions are read exactly when the data starts with the magic number, and each fits 16 bits |
| Decompiler.HeaderRoundTrip | maven_decoder_mcp/decompiler.py:208-211 | reading a header written with a version gives that version |
| Decompiler.NoMagicNoVersion | maven_decoder_mcp/decompiler.py:209 | without the magic number nothing is read |
| Decompiler.Slice | maven_decoder_mcp/decompiler.py:210-211 | Python slicing cuts at the data's end and is exact within it |
| Decompiler.FromBytesBig | maven_decoder_mcp/decompiler.py:210-211 | a big-endian number of n bytes is below 256 to the n |
| Decompiler.AnalyzeJarStructure | maven_decoder_mcp/decompiler.py:258-311 | the loops compute the jar summary of the specification |
| Decompiler.EntriesPartitioned | maven_decoder_mcp/decompiler.py:276-288 | every entry is counted once as a class, a resource or a directory |
| Decompiler.PackagesTotal | maven_decoder_mcp/decompiler.py:282-288 | the package counts add up to the class entries in a directory, no more than the classes |
| Decompiler.PackagesExactly | maven_decoder_mcp/decompiler.py:282-288 | a package is counted exactly when a class entry in a directory lies in it, and its count is the number of such entries |
| Decompiler.PackageIsDirectories | maven_decoder_mcp/decompiler.py:282 | the package is the entry's directories joined with '.' |
| Decompiler.ServicesExactly | maven_decoder_mcp/decompiler.py:295-306 | one service record per readable entry under `META-INF/services/`, with that prefix removed and the file's implementations |
| Decompiler.ServicesAppend | maven_decoder_mcp/decompiler.py:295-306 | the records of two runs of entries are the first run's followed by the second's, so records keep archive order |
| Decompiler.ServiceInterface | maven_decoder_mcp/decompiler.py:298 | removing the prefix leaves the interface name when the prefix does not recur |
| Decompiler.Implementations | maven_decoder_mcp/decompiler.py:303 | implementations are non-empty and stripped |
| Decompiler.ImplementationsRoundTrip | maven_decoder_mcp/decompiler.py:303 | a file listing one name per line gives back those names |
| Counters.Increment | maven_decoder_mcp/maven_decoder_server.py:453 | the key's count goes up by one (from zero when new); every other key keeps its presence and count; keys stay listed once each |
| Counters.TotalIncrement | maven_decoder_mcp/maven_decoder_server.py:453 | each increment adds one to the total |
| Counters.TallyTotal | maven_decoder_mcp/maven_decoder_server.py:447-454 | the counts add up to the number of elements counted |
| Counters.TallyExactly | maven_decoder_mcp/maven_decoder_server.py:447-454 | a key is counted exactly when a counted element has it, and its count is the number of counted elements with that key |
| Counters.TallyCount | maven_decoder_mcp/maven_decoder_server.py:447-454 | a present key's count is the number of counted elements with that key; an absent key has none |
| Server.ExtractPackages | maven_decoder_mcp/maven_decoder_server.py:447-454 | the loop computes the package counter of the specification |
| Server.PackageTallyExactly | maven_decoder_mcp/maven_decoder_server.py:450-453 | the counts add up to the entries in a directory; a package is counted exactly when such an entry lies in it, with the number of those entries as its count |
| Server.ExtensionAfterLastDot | maven_decoder_mcp/maven_decoder_server.py:460-461 | the kind is the lower-cased text after the last '.' |
| Server.CategorizeResources | maven_decoder_mcp/maven_decoder_server.py:456-465 | the loop computes the resource-kind counter of the specification |
| Server.ResourceKindsExactly | maven_decoder_mcp/maven_decoder_server.py:456-465 | every resource is counted once; a kind appears exactly when some resource has it, with the number of such resources as its count |
| Server.ParseManifest | maven_decoder_mcp/maven_decoder_server.py:467-474 | the loop computes the simple manifest of the specification |
| Server.SimpleAttributeLine | maven_decoder_mcp/maven_decoder_server.py:471-473 | a `key:value` line sets the stripped key to the stripped value |
| Server.SimpleIgnoredLine | maven_decoder_mcp/maven_decoder_server.py:471 | a line without ':' changes nothing |
| Server.ReadersAgree | maven_decoder_mcp/maven_decoder_server.py:467-474 | without continuation lines or carriage returns, the server's reader and the decompiler's give the same attributes |
| Server.ArtifactInfoFromPath | maven_decoder_mcp/maven_decoder_server.py:618-637 | fewer than three parts give `unknown` everywhere; otherwise artifact and version are the third- and second-to-last parts |
| Server.ArtifactInfoRoundTrip | maven_decoder_mcp/maven_decoder_server.py:618-637 | a file in a version directory gives back that coordinate |
| Server.GroupIdRoundTrip | maven_decoder_mcp/maven_decoder_server.py:375-378 | the group id of a group's directory is the group |
| Server.GetJarPath | maven_decoder_mcp/maven_decoder_server.py:430-445 | the main jar when it exists; otherwise the version directory's first `.jar` entry, an existing path ending in `.jar`; none exactly when neither exists |
| FileTree.FirstEndingWith | maven_decoder_mcp/maven_decoder_server.py:441-443 | the first jar listed is the name of the first directory entry ending in `.jar`; no earlier entry ends in `.jar` |
| Server.JarIsChild | maven_decoder_mcp/maven_decoder_server.py:441-443 | the first jar listed is found below the directory |
| Server.GetSourcesJarPath | maven_decoder_mcp/maven_decoder_server.py:675-680 | a path exactly when the `-sources.jar` exists, and it is that path |
| Server.Unique | maven_decoder_mcp/maven_decoder_server.py:722-723 | building a set keeps each entry once |
| Server.ClassesOutside | maven_decoder_mcp/maven_decoder_server.py:725-726 | exactly the class entries of one jar missing from the other |
| Server.CompareMembers | maven_decoder_mcp/maven_decoder_server.py:718-726 | added classes are those only in the second jar, removed ones only in the first, never both; the size difference is second minus first |
| Server.CompareCounts | maven_decoder_mcp/maven_decoder_server.py:725-727 | both lists are strictly increasing, and with the common count they add up to each jar's classes |
| Server.CompareOrderFree | maven_decoder_mcp/maven_decoder_server.py:725 | the added list is the unique sorted arrangement of its members, whatever the entry order |
| Server.ClassNameAsWritten | maven_decoder_mcp/maven_decoder_server.py:510 | the class name as written: '/' becomes '.', then every ".class" is removed |
| Server.AsWrittenExactly | maven_decoder_mcp/maven_decoder_server.py:510 | the name as written equals the class name exactly when the class name does not contain ".class" |
| Server.ClassName | maven_decoder_mcp/maven_decoder_server.py:510 | the corrected class name drops exactly the final suffix |
| Server.ClassNameOfPath | maven_decoder_mcp/maven_decoder_server.py:510 | class name and class entry are inverse for names without '/' |
| Server.PathOfClassName | maven_decoder_mcp/maven_decoder_server.py:510 | and for entries whose directories and file name hold no '.' |
| Server.SimpleName | maven_decoder_mcp/maven_decoder_server.py:522 | the simple name holds no '.' |
| Server.QualifiedName | maven_decoder_mcp/maven_decoder_server.py:521-522 | a qualified name is its package, a '.', and its simple name; without a '.' the package is empty |
| Server.ClassInfos | maven_decoder_mcp/maven_decoder_server.py:507-523 | one record per class entry, each naming a class entry of the jar |
| Server.ClassInfosAppend | maven_decoder_mcp/maven_decoder_server.py:507-523 | the records of two runs of entries are the first run's followed by the second's |
| Server.ClassInfosOne | maven_decoder_mcp/maven_decoder_server.py:507-523 | one entry gives one record when it is a class entry and none otherwise, so records follow archive order, one per class entry |
| Server.ClassInfoParts | maven_decoder_mcp/maven_decoder_server.py:517-523 | each record's name comes from its entry, and package and simple name split it |
| ArtifactListing.GroupDirs | maven_decoder_mcp/maven_decoder_server.py:316 | exactly the directories among the root's entries |
| ArtifactListing.ListArtifacts | maven_decoder_mcp/maven_decoder_server.py:305-373 | the three loops compute the listing of the specification |
| ArtifactListing.ListVersions | maven_decoder_mcp/maven_decoder_server.py:334-354 | the innermost loop scans one artifact's version directories |
| ArtifactListing.GroupsAllExactly | maven_decoder_mcp/maven_decoder_server.py:319-351 | without the limit, a listing is found exactly for each version directory with jars whose names pass the three filters |
| ArtifactListing.ListPositiveLimit | maven_decoder_mcp/maven_decoder_server.py:352-367 | with a positive limit the result is the first `limit` listings of the walk, and the count is their number |
| ArtifactListing.ListNonPositiveLimit | maven_decoder_mcp/maven_decoder_server.py:352-367 | with a limit of zero or less nothing is listed, and the count is at most one |
| ArtifactListing.ListedGroupId | maven_decoder_mcp/maven_decoder_server.py:343-351 | a listing's path is group/artifact/version, every name passes its filter, and the jars are non-empty `.jar` names |
| ArtifactListing.Prefix | maven_decoder_mcp/maven_decoder_server.py:366 | Python's `xs[:stop]` with a negative stop counting from the end |
| ArtifactListing.ScanGroupsLimited | maven_decoder_mcp/maven_decoder_server.py:319-362 | below the limit, the walk yields the first listings of the unlimited walk |
| Ordering.SortBy | maven_decoder_mcp/maven_analyzer.py:373 | the library sort gives an ordered permutation |
| Ordering.StrictlyIncreasingUnique | maven_decoder_mcp/maven_decoder_server.py:725 | a set of strings has one strictly increasing arrangement |

## Left out

- File I/O, `zipfile`, `stat` (POM size and modification time), subprocess decompilers and the MCP tool dispatch are outside the model. The repository is a value `FileTree.Node`, a jar is its names plus the text of its readable entries, and a read failure is an `Opaque` file or a missing text.
- `ET.parse` and `xmltodict` are taken as given. A POM file is its element tree or a parse error.
- `Xml.RemoveNamespace`: modelled on values, returning a new tree, not as the in-place rewrite of `_remove_namespace`.
- Absolute paths are not modelled. Paths are parts relative to the repository root, so `relative_to` cannot fail and the `path` strings of the records are relative.
- `Strings.Lower` folds only ASCII letters; Python's `lower()` also folds other scripts.
- `Analyzer.Describe`: the parent chain is followed up to a `fuel` bound standing for the interpreter's recursion limit. `Analyzer.FuelIndependent` shows that the bound does not matter once the chain ends; a cyclic chain gives what the bound allows, not a `RecursionError`.
- The key order of the manifest dictionary is not modelled; manifests are maps.
- Ordering.SortBy: sort stability is not stated; the contract is an ordered permutation.
- The `class_pattern` regular-expression filter of `_extract_class_info` is not modelled. `Server.ClassInfos` is the list when no pattern is given.
- The listing walks the three directory levels exactly as written: groups whose id has more than one part are not found.
- Server.ReadersAgree: the two manifest readers agree only without continuation lines and carriage returns. That is stated as the precondition.
- The loop bodies of the walk (`Transitive.Resolver.Visit`), of the listing (`ArtifactListing.ListVersions`) and of the dependents scan (`Catalog.CollectDependents`) are methods of their own. Each is proved against its own step function.
- The class-info fields beyond name, path, package and simple name, and the API comparison of `_compare_versions` (a TODO in the source) are not modelled.
- Analyzer.Build: the direct list is read with the corrected `Analyzer.ProjectDependencies` (the root's own `dependencies` child), not with the `.//dependencies` search as written. On a POM whose `dependencyManagement/dependencies` comes before the project's `dependencies`, the program reports the managed list and the model the project's own (first row of "## Findings").
- Engine.AnalyzeDependencies: the direct list, and with it the transitive walk and the conflict report, follows the corrected lookup of `Analyzer.Build`. It differs from the program on the POMs named there.
- Engine.FindDependencyTree: the tree's nodes are the corrected direct list of `Analyzer.Build`, not what the `.//dependencies` search returns.
- Transitive.RepositoryLookup: each dependency's own direct list comes from the corrected lookup of `Analyzer.Build`.
- Server.ClassInfos: records are named with the corrected `Server.ClassName`, which removes only the final `.class`. The program removes every `.class` in the dotted name, so `org/classic/Util.class` is named `orgic.Util` there and `org.classic.Util` here (second row of "## Findings"). `Server.AsWrittenExactly` states the name as written.
- Server.ClassInfoParts: the name, package and simple name follow the corrected `Server.ClassName`, as for `Server.ClassInfos`.
- FileTree.FirstEndingWith: a directory's entries are taken in the order the tree lists them; the order `glob` yields on a real file system is not modelled, so "first" means first in that listing.
- Conflicts.ConflictsExactly: a conflict's `versions` are a set; the source builds the list with `list(set(...))`, whose order is not determined, so the model states which versions appear and not their order.
- Logging, the unused artifact cache and the unused `requests` import have no effect on results and are left out.

## Findings

| source | as written | input that shows it | evidently intended | confidence | as-written member | corrected member |
|---|---|---|---|---|---|---|
| maven_decoder_mcp/maven_analyzer.py:72 | `root.find(".//dependencies")` takes the first `dependencies` element anywhere in the POM | a POM whose `dependencyManagement/dependencies` precedes the project's own `dependencies`: the managed list is reported as the direct dependencies | the project's own `dependencies` child of the root | not executed | Analyzer.ManagedListShadowsDirect | Analyzer.ProjectDependenciesFound |
| maven_decoder_mcp/maven_decoder_server.py:510 | `.replace('.class', '')` removes every ".class" in the dotted name | the entry `org/classic/Util.class` gives `orgic.Util` | remove only the final ".class" suffix | not executed | Server.AsWrittenExactly | Server.ClassName |
