# PackageMerge in Dafny

PackageMerge merges several Salesforce metadata packages into one. Each package
is a zip archive or a directory with a `package.xml` manifest. The first input
seeds a target directory. Every later input is staged into a temporary
directory, checked for file-level collisions with the target, and, when
nothing collides, merged: the two manifests are unioned per metadata type into
the target's manifest, the staged manifest is deleted, and the staged files
are moved onto the target. Finally the target is zipped.

This project models that core and proves properties of it.

- `options.dfy` (`Options`) holds `Option` and `Result`.
- `lexicographic.dfy` (`Lexicographic`) holds the string order of
  `TreeSet<String>` and `Sorted`, the ascending list a `TreeSet` iterates.
- `manifest.dfy` (`Manifest`) covers three parts of the manifest handling:
  - the manifest as a root plus its `version`/`types` elements in document
    order;
  - `convertXmlToMetadataHash`, `getItemSet` and `joinHashmaps`, over
    `map<string, set<string>>`;
  - the loop that writes the merged manifest: version first, then one
    `types` group per type name in ascending order, each with its members
    ascending.
- `package_tree.dfy` (`PackageTree`) models an unpacked package as a map from
  relative path (`/classes/Foo.cls`) to a directory or a file. It holds the
  collision scan `checkFileCollisions` as written, and a corrected scan that
  reports relative paths.
- `package_merge.dfy` (`PackageMerge`) holds `mergePackageXMLs` and
  `processFiles`. The working directory is the class `Workspace`, whose fields
  are the target and temporary trees. A run as a whole is specified by the
  functions `Steps` and `Run`. `ProcessFiles` is proved equal to `Run`.

The file operations of the `Utils` class are not part of this model. They are
methods of `Workspace` whose contracts are ASSUMED, and each is marked so in
its doc comment:

- `purgeDirectory`/`checkDir` empty the working area;
- `unzip` and `copyDirContent` add a package's entries to a directory;
- `copyDirContent` fails on a missing input;
- `mergeTwoDirectories` moves every entry of the temporary directory into the
  target and empties the temporary directory;
- `zipIt` archives the target as it is.

The order in which `FileUtils.iterateFiles` visits a tree is a parameter
(`walk`). Every statement about the scan holds for any walk, and the
statements that need it assume the walk lists the whole staged tree.

Where the code and its documented intent differ, the model follows the code:

- A `types` element without a `name` makes `convertXmlToMetadataHash` throw,
  so the whole manifest is skipped, not just that group.
- A stopped run (collision, failed copy, failed manifest merge) does not
  clean up the working directory.
- The collision report is `currentDir + name`, not the relative path (see
  Findings).

## Model

| member | source | states |
|---|---|---|
| Lexicographic.LessIsStrictTotalOrder | PackageMerge/src/com/salesforce/migrationtools/PackageMerge.java:227 | The string order a `TreeSet<String>` sorts by is irreflexive, transitive and total. |
| Lexicographic.SortedMeaning | PackageMerge/src/com/salesforce/migrationtools/PackageMerge.java:227 | Iterating a `TreeSet` built from a set yields a strictly ascending list holding exactly the set's elements. |
| Lexicographic.AscendingUnique | PackageMerge/src/com/salesforce/migrationtools/PackageMerge.java:237 | Two strictly ascending lists with the same elements are equal, so the output order cannot depend on how the set was built. |
| Lexicographic.SortedIsTheAscendingList | PackageMerge/src/com/salesforce/migrationtools/PackageMerge.java:227 | The sorted list of a set is the one strictly ascending list of its elements. |
| Manifest.ConvertXmlToMetadataHash | PackageMerge/src/com/salesforce/migrationtools/PackageMerge.java:261-296 | The mapping is produced exactly when every `types` element has a `name`, and it is then the fold `HashOf` of the `types` elements in document order; otherwise the conversion fails. |
| Manifest.AddMembers | PackageMerge/src/com/salesforce/migrationtools/PackageMerge.java:285-291 | The inner loop adds every listed member to the set stored under the type name and changes no other key. |
| Manifest.HashOfMeaning | PackageMerge/src/com/salesforce/migrationtools/PackageMerge.java:265-291 | The keys are exactly the type names that occur. Under each name are exactly the members listed by any group of that name: same-named groups fold into one set and duplicates collapse. |
| Manifest.HashOfDistinctNames | PackageMerge/src/com/salesforce/migrationtools/PackageMerge.java:267-291 | When the group names are distinct, a name's set is exactly the members of its one group. |
| Manifest.GetItemSet | PackageMerge/src/com/salesforce/migrationtools/PackageMerge.java:312-322 | An existing key returns its set and leaves the map alone. A missing key gets exactly one empty set inserted, and that set is returned; no other entry changes. |
| Manifest.AddAllTypes | PackageMerge/src/com/salesforce/migrationtools/PackageMerge.java:302-306 | One outer round of `joinHashmaps` adds every key's set of the input map into the result, whatever order the key set yields. The input map is unchanged throughout, because `getItemSet` only meets its own keys. |
| Manifest.JoinHashmaps | PackageMerge/src/com/salesforce/migrationtools/PackageMerge.java:298-310 | The result is the per-type union `JoinAll` of the list, taken in list order. An empty list gives the empty map. |
| Manifest.JoinAllMeaning | PackageMerge/src/com/salesforce/migrationtools/PackageMerge.java:298-310 | The union's keys are the union of the input key sets. Each key maps to the union of that key's sets across the inputs, so no member is lost or invented. |
| Manifest.JoinAllOne | PackageMerge/src/com/salesforce/migrationtools/PackageMerge.java:298-310 | The union of a single mapping is that mapping. |
| Manifest.SameContentsSameJoin | PackageMerge/src/com/salesforce/migrationtools/PackageMerge.java:298-310 | Two lists with the same keys and the same members under each key have the same union. |
| Manifest.JoinAllOrderFree | PackageMerge/src/com/salesforce/migrationtools/PackageMerge.java:301-307 | Permuting the inputs does not change the union. |
| Manifest.JoinAllIdempotent | PackageMerge/src/com/salesforce/migrationtools/PackageMerge.java:301-307 | Adding an input that is already in the list does not change the union. |
| Manifest.JoinAllFlatten | PackageMerge/src/com/salesforce/migrationtools/PackageMerge.java:301-307 | Joining a union with further maps equals the union of all of them, so inputs can be absorbed one round at a time. |
| Manifest.BodyIsBodyFor | PackageMerge/src/com/salesforce/migrationtools/PackageMerge.java:227-243 | The written body has one `types` group per key, in strictly ascending order of name. Each group lists exactly that key's members, once each and ascending. |
| Manifest.SerialisedIsManifestFor | PackageMerge/src/com/salesforce/migrationtools/PackageMerge.java:214-244 | The written manifest keeps the given root, puts the version element first, and follows it with that body. |
| Manifest.BodyUnique | PackageMerge/src/com/salesforce/migrationtools/PackageMerge.java:227-243 | Only one body fits a mapping, so the output is deterministic. |
| Manifest.ManifestUnique | PackageMerge/src/com/salesforce/migrationtools/PackageMerge.java:214-244 | Only one manifest fits a root, a version and a mapping. |
| Manifest.ReadBackBody | PackageMerge/src/com/salesforce/migrationtools/PackageMerge.java:227-243 | Converting a written body back gives exactly the mapping it was written from. |
| Manifest.ReadBack | PackageMerge/src/com/salesforce/migrationtools/PackageMerge.java:214-244 | Reading a written manifest gives its version as the first version and the mapping it was written from (round trip through `convertXmlToMetadataHash`). |
| Manifest.SerialiseManifest | PackageMerge/src/com/salesforce/migrationtools/PackageMerge.java:214-244 | The writing loop builds `Serialised(root, version, hash)`. Its properties are the lemmas above. |
| PackageTree.NameAfterSlash | PackageMerge/src/com/salesforce/migrationtools/PackageMerge.java:160 | `getName` of `dir/n` is `n` when `n` has no separator. |
| PackageTree.CheckFileCollisions | PackageMerge/src/com/salesforce/migrationtools/PackageMerge.java:151-174 | The scan as written builds `ReportAsWritten`. A skipped name is passed over; a directory entry resets `currentDir`; a file whose relative path exists in the target is reported as `currentDir` plus its bare name. Neither tree changes. |
| PackageTree.FindCollisions | PackageMerge/src/com/salesforce/migrationtools/PackageMerge.java:151-174 | The corrected scan returns `Collisions`: the flagged relative paths, in walk order. |
| PackageTree.CollisionsMeaning | PackageMerge/src/com/salesforce/migrationtools/PackageMerge.java:157-169 | A path is reported exactly when the walk yields it and it is a non-directory entry with a name that is not skipped and whose relative path exists in the target. |
| PackageTree.SkippedAtAnyDepth | PackageMerge/src/com/salesforce/migrationtools/PackageMerge.java:160-162 | A name starting with `.` or equal to `package.xml` is never flagged, at any depth. |
| PackageTree.CollisionsComplete | PackageMerge/src/com/salesforce/migrationtools/PackageMerge.java:157-169 | When the walk lists the whole staged tree, every staged file that exists in the target and is not skipped is reported. |
| PackageTree.ReportMatchesCollisions | PackageMerge/src/com/salesforce/migrationtools/PackageMerge.java:163-168 | The report as written has one string per collision, in the same order, each ending with the colliding entry's bare name. |
| PackageTree.AbortDecisionAgrees | PackageMerge/src/com/salesforce/migrationtools/PackageMerge.java:106-108 | The scan as written and the corrected scan are empty on the same inputs, so they stop the run on the same inputs. |
| PackageTree.FilesOnlyWalkReportsNames | PackageMerge/src/com/salesforce/migrationtools/PackageMerge.java:153-167 | On a walk that yields files only, the report as written is the bare name of each collision. |
| PackageTree.ReportAsWrittenLosesDirectory | PackageMerge/src/com/salesforce/migrationtools/PackageMerge.java:167 | Counterexample: `/classes/Foo.cls` in both trees is reported as `Foo.cls`, while its relative path is `/classes/Foo.cls`. |
| PackageTree.ReportAsWrittenGluesDirectory | PackageMerge/src/com/salesforce/migrationtools/PackageMerge.java:164-167 | Counterexample: when the walk yields the directory first, the report glues the absolute remainder to the name with no separator (`/home/user//classesFoo.cls`). |
| PackageMerge.ReadManifests | PackageMerge/src/com/salesforce/migrationtools/PackageMerge.java:183-207 | The loop over the two manifest paths collects, in order, the mapping of every manifest that exists, parses and converts; `doc1` is the first such manifest. |
| PackageMerge.PairParsed | PackageMerge/src/com/salesforce/migrationtools/PackageMerge.java:186-207 | For the two paths, the mappings are the target's then the staged one's, each only when readable. `doc1` is the target's manifest when readable, else the staged one's when readable, else none. |
| PackageMerge.MergeManifestsMeaning | PackageMerge/src/com/salesforce/migrationtools/PackageMerge.java:176-259 | The merge goes through exactly when some manifest was read, the first one read has a version, and the target manifest path is not a directory. Then only the target's manifest changes. It holds the root and version of the first manifest read (the target's own when readable) and the union of the mappings read. |
| PackageMerge.UnreadableStagedManifestAddsNothing | PackageMerge/src/com/salesforce/migrationtools/PackageMerge.java:189-205 | A staged manifest that is missing or does not parse is skipped: the merged mapping is the target's alone. |
| PackageMerge.WrittenManifestReadsBack | PackageMerge/src/com/salesforce/migrationtools/PackageMerge.java:214-257 | A tree holding a written manifest reads back as that manifest's root, version and mapping. |
| PackageMerge.Workspace.MergePackageXMLs | PackageMerge/src/com/salesforce/migrationtools/PackageMerge.java:176-259 | On success the target becomes `MergeManifests` of the old trees. On failure the target is unchanged and the failure is returned. The temporary tree never changes. |
| PackageMerge.Workspace.StageInput | PackageMerge/src/com/salesforce/migrationtools/PackageMerge.java:72-78 | An archive is unzipped and a folder copied into the chosen directory; a missing input fails and leaves both directories alone. |
| PackageMerge.Workspace.DeleteTempManifest | PackageMerge/src/com/salesforce/migrationtools/PackageMerge.java:117 | `File.delete` on the staged manifest: a file, or an empty directory, is removed; only the temporary tree changes. |
| PackageMerge.Workspace.MergeInput | PackageMerge/src/com/salesforce/migrationtools/PackageMerge.java:84-122 | One round of the loop changes the working area exactly as `MergeStep` says: stage, scan, stop on a collision, merge the manifests, delete the staged manifest and move the staged tree. |
| PackageMerge.Workspace.ProcessFiles | PackageMerge/src/com/salesforce/migrationtools/PackageMerge.java:54-131 | The run's outcome and its final working area are exactly `Run(inputs, walk)`. |
| PackageMerge.StoppedStays | PackageMerge/src/com/salesforce/migrationtools/PackageMerge.java:82-123 | Once the run has stopped, later inputs change nothing. |
| PackageMerge.StopPoint | PackageMerge/src/com/salesforce/migrationtools/PackageMerge.java:82-123 | A stopped run stopped either at the seed or in the round of one input `k`, which was handed a running working area. |
| PackageMerge.StepsOfPrefix | PackageMerge/src/com/salesforce/migrationtools/PackageMerge.java:82 | The first `n` rounds depend on the first `n` inputs only, so inputs are taken strictly in order. |
| PackageMerge.AbortIsFinal | PackageMerge/src/com/salesforce/migrationtools/PackageMerge.java:113 | Inputs after the one that stopped the run are never looked at. |
| PackageMerge.RunningTempIsEmpty | PackageMerge/src/com/salesforce/migrationtools/PackageMerge.java:121 | While the run goes on, the temporary directory is empty between rounds. |
| PackageMerge.ZippedIffAllMerged | PackageMerge/src/com/salesforce/migrationtools/PackageMerge.java:125-127 | The output archive is written exactly when every input was merged, and it is the target after the last input. |
| PackageMerge.CollidedRound | PackageMerge/src/com/salesforce/migrationtools/PackageMerge.java:106-114 | A round that stops on a collision leaves the target as it was and holds the staged input. |
| PackageMerge.CollisionLeavesTarget | PackageMerge/src/com/salesforce/migrationtools/PackageMerge.java:106-114 | A run that ends in a collision at input `k` leaves the target exactly as inputs `0..k-1` left it. The temporary tree is input `k`'s, and the report is the non-empty collision list between them. |
| PackageMerge.NoSilentOverwrite | PackageMerge/src/com/salesforce/migrationtools/PackageMerge.java:106-116 | When the walk lists the whole staged tree and the round goes on, no staged file whose name is not skipped already exists in the target. |
| PackageMerge.MergedRoundFiles | PackageMerge/src/com/salesforce/migrationtools/PackageMerge.java:116-121 | After a merged round, every staged entry except the manifest arrives unchanged. Every target entry not staged, except the manifest, stays. No path appears that was in neither tree. |
| PackageMerge.MergedRoundManifest | PackageMerge/src/com/salesforce/migrationtools/PackageMerge.java:116-121 | With a readable target manifest, a merged round writes the target's root and version and the union of both mappings to the target's manifest. |
| PackageMerge.RoundManifest | PackageMerge/src/com/salesforce/migrationtools/PackageMerge.java:86-121 | A round that goes through keeps the target manifest's root and version and adds the input's mapping to it. |
| PackageMerge.TargetManifest | PackageMerge/src/com/salesforce/migrationtools/PackageMerge.java:72-123 | While the run goes on, the target's manifest has the first input's root and version and the union of the mappings of every input so far. |
| PackageMerge.ZippedManifest | PackageMerge/src/com/salesforce/migrationtools/PackageMerge.java:54-127 | The output archive's manifest has the first input's root and version, and lists exactly the types and members of every input's readable manifest. |

## Left out

- XML parsing and writing (`DocumentBuilder`, `importNode`, `Transformer`, indentation, namespaces): a document is its root and its `version`/`types` elements in document order. A parse failure is an input that is not well-formed XML.
- `Utils` (`purgeDirectory`, `checkDir`, `unzip`, `copyDirContent`, `mergeTwoDirectories`, `zipIt`, `checkIfFileExists`, `checkIsDirectory`) is not part of this model. Its calls are `Workspace` methods with assumed contracts.
- `mergeTwoDirectories` is assumed to move the staged tree and empty the temporary directory. If it copied instead, a third input would also collide with the second input's leftovers.
- `FileUtils.iterateFiles`: its order and selection are the `walk` parameter. Statements that need every staged path assume the walk lists them.
- `String.compareTo` compares UTF-16 code units; the model compares characters.
- HashSet aliasing: the set `getItemSet` returns is shared with the map. The model writes each updated set back under its key.
- `main`, the usage text, console output and `System.exit`: a collision ends the run with the report as its outcome.
- Exceptions are outcomes of the run: `CannotCopy` for the caught IOException, and `NoManifest`/`NoVersion` for the null dereference when no manifest was read or it has no version. `ManifestNotWritable` stands for the failure to write the manifest over a directory.
- Cleanup after a stopped run is not done by the source and not modelled.
- `Utils.checkDir(tempDirPath)` before each round is taken to change nothing.
- PackageMerge.ZippedManifest: requires the first input's manifest to be readable and every input's manifest path to hold a file. Otherwise `doc1` can come from a later input, or a staged directory survives `File.delete`.
- PackageMerge.TargetManifest: the same two requirements as ZippedManifest.
- PackageMerge.Workspace.ProcessFiles: uses the corrected scan `FindCollisions`. The scan as written stops the run on the same inputs (`AbortDecisionAgrees`) and differs only in the report's strings.

## Findings

| source | as written | input that shows it | evidently intended | confidence | as-written member | corrected member |
|---|---|---|---|---|---|---|
| PackageMerge/src/com/salesforce/migrationtools/PackageMerge.java:164-167 | A collision is reported as `currentDir + getName()`. `currentDir` is empty until a directory entry is seen, and then is an absolute remainder glued on with no separator. | Target and staged tree both hold `/classes/Foo.cls`. A files-only walk `["/classes/Foo.cls"]` reports `Foo.cls`; a walk `["/classes", "/classes/Foo.cls"]` under `/home/user/` reports `/home/user//classesFoo.cls`. | Report the colliding file's relative path, `/classes/Foo.cls`. | not executed; high for the files-only walk that `iterateFiles` yields | PackageTree.ReportAsWrittenLosesDirectory | PackageTree.FindCollisions |
