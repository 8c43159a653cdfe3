# NetBeans project builder for a Liferay portal tree, modelled in Dafny

The Liferay NetBeans project builder walks a portal source tree. It looks for
module roots, which are directories that have a `src` child. For each one it
works out the module's layout and generates a NetBeans project. This model
covers three parts of the builder:

- **The module record** (`Module.java`, module `ModuleContainer`):
  - how the source, resource and test directories of a module root are
    resolved by ordered fallback;
  - how `build.gradle` is fingerprinted;
  - the fields that `equals` and `hashCode` compare;
  - how the record is saved to `module-info.properties` and loaded back;
  - how the jars under `lib` are added to the jar list.
- **The stand-alone generator** (`ModuleProject.java`, module `ModuleProject`,
  class `LegacyScan`). It walks the portal with a black list of directory
  names, resolves the older docroot-aware layout, renormalises `WEB-INF`
  roots, writes one build file and one `include` line per module, and files
  each module in a project map keyed by its parent directory.
- **The incremental rebuilder** (`IncrementBuilder.java`, module
  `IncrementBuilder`, class `Builder`). For each portal whose project
  directory exists, it loads the records saved by earlier runs and walks the
  portal. A module is regenerated only when its stored record differs from a
  fresh look at it. A portal without a project directory is handed to a full
  scan.

Both walks share one decision per directory: an excluded name prunes the
subtree, a `src` child makes the directory a module root (which is yielded,
and its subtree pruned), and anything else is descended into. This is module
`DiscoveryWalker`. Its `Discover` method is a worklist loop, proved to yield
exactly the directories that the declarative `IsModuleRoot` describes. The
loop takes any pending directory next, so the order of the walk is left
open; the depth-first order of `Files.walkFileTree` is one of the orders it
allows, and every property proved holds for all of them. Both builders then
handle the roots in the order the walk found them. This is sound for two
reasons:

- `ModuleProject` writes only in its project directory: `_clean` deletes it
  with everything in it, and each build file goes to `modules/<name>` inside it. The model records
  those writes as events. `Scan` requires the project directory to be
  unrelated to the portal tree, so the writes fall outside the walked tree.
- The modelled writes of `IncrementBuilder` fall only below
  `<projectRoot>/modules`. `ChangesOnlyBelow` and the preserved
  `SameSubtree` over the portal tree prove that confinement. The writes of
  `CreateModule.createModule`, whose source is not part of this model, are
  assumed to leave the portal tree alone.

The filesystem is a value (module `FilePaths`) with three parts:

- the set of existing paths, each a sequence of names;
- the bytes of files that are read;
- the parsed contents of properties files.

Java's `null` is `Option`, and an exception is a `Result` failure or an
absent result. The collaborators the code calls are function-typed
parameters:

- the MD5-and-hex digest;
- `GradleUtil.getJarDependencies` and `GradleUtil.getModuleDependencies`;
- `ModuleUtil.getModuleName`.

Steps that the model does not carry out on the filesystem are recorded in a
ghost `log` of events. These are the jar-dependency query, `unZip`, project
generation, the full scan, `_clean` and the build-file write.

In these places the model follows the code, whose behaviour may surprise a
reader:

- `Module._resolveSourcePath` tries `docroot/WEB-INF/src` before
  `src/main/java`.
- An unchanged root still costs one module-dependency query: the fresh look
  that `addModule` compares with the stored record calls
  `GradleUtil.getModuleDependencies`.
- `ignored.dirs` is searched as text, not split into names (`IgnoredAsText`).
- The jars found under `lib` are tagged with `false`.
- A failure inside the incremental visitor stops the whole walk, because it
  is rethrown. In the model, though, the collaborators never fail.

## Model

| member | source | states |
|---|---|---|
| FilePaths.FirstExisting | src/com/liferay/netbeansproject/container/Module.java:295-322 | The ordered-fallback rule the resolvers share: absent exactly when no candidate exists. Otherwise the answer exists and is the candidate at some index before which no candidate exists. |
| FilePaths.ParsePathString | src/com/liferay/netbeansproject/container/Module.java:240-248 | `Paths.get` of a well-formed path's `toString` gives back the same path, so a path stored in a record reads back unchanged. |
| FilePaths.DeleteTree | src/com/liferay/netbeansproject/IncrementBuilder.java:133-136 | Deleting the output directory removes exactly the paths and the records at or below it, keeps every other record as it was, and keeps every file's bytes. |
| DiscoveryWalker.Discover | src/com/liferay/netbeansproject/IncrementBuilder.java:100-117 | The walk yields each directory exactly when it is a module root reached through non-excluded directories without `src`. It yields each root once, never one root inside another, and no root has an excluded name at or below the walk's root. |
| DiscoveryWalker.NoNestedRoots | Module-Project/src/com/liferay/netbeansproject/ModuleProject.java:78-95 | A module root never lies inside another one, because the walk prunes below each root. |
| DiscoveryWalker.ExcludedSubtreeHasNoRoots | Module-Project/src/com/liferay/netbeansproject/ModuleProject.java:72-76 | Nothing at or below a directory whose name is excluded is a module root. |
| ModuleContainer.ResolveSourcePath | src/com/liferay/netbeansproject/container/Module.java:269-293 | `docroot/WEB-INF/src` when it exists. Otherwise `src/main/java` when it exists. Otherwise absent exactly when `src/main`, `src/test` or `src/testIntegration` exists, and bare `src` when none does. |
| ModuleContainer.ResolveResourcePath | src/com/liferay/netbeansproject/container/Module.java:258-267 | `src/<type>/resources` exactly when it exists, absent otherwise. |
| ModuleContainer.ResolveTestPath | src/com/liferay/netbeansproject/container/Module.java:295-322 | For unit tests `src/test/java` then `test/unit`; for integration tests `src/testIntegration/java` then `test/integration`. The first candidate wins when it exists, and the answer is absent exactly when neither exists. |
| ModuleContainer.ResolveTestPathIsFirstExisting | src/com/liferay/netbeansproject/container/Module.java:295-322 | The test resolver equals the ordered first-existing rule over its two candidates. |
| ModuleContainer.Checksum | src/com/liferay/netbeansproject/container/Module.java:65-81 | Absent exactly when `build.gradle` does not exist; otherwise the digest of that file's bytes. |
| ModuleContainer.DescribeIsLocal | src/com/liferay/netbeansproject/container/Module.java:44-98 | The compared fields `createModule` computes depend only on the subtree below the module root. |
| ModuleContainer.Equal | src/com/liferay/netbeansproject/container/Module.java:120-148 | Two modules are equal exactly when the module path, the six layout paths and the checksum agree. |
| ModuleContainer.EqualIgnoresUncompared | src/com/liferay/netbeansproject/container/Module.java:120-148 | Equality ignores the project path and both dependency lists. |
| ModuleContainer.EqualIsEquivalence | src/com/liferay/netbeansproject/container/Module.java:120-148 | Equality is reflexive, symmetric and transitive. |
| ModuleContainer.HashFieldsMatchEquality | src/com/liferay/netbeansproject/container/Module.java:194-207 | The fields fed to the hash agree exactly when the modules are equal. |
| ModuleContainer.EqualModulesHashEqually | src/com/liferay/netbeansproject/container/Module.java:194-207 | Equal modules have equal hash codes, whatever the hash function computes. |
| ModuleContainer.PutProperty | src/com/liferay/netbeansproject/container/Module.java:250-256 | A null value stores nothing. A present value is stored under its key, and every other key keeps its value. |
| ModuleContainer.RecordContents | src/com/liferay/netbeansproject/container/Module.java:344-368 | The saved record holds the printed module path and each present layout path under its key. It holds the checksum exactly when `build.gradle` exists, and no other key. |
| ModuleContainer.SaveFs | src/com/liferay/netbeansproject/container/Module.java:344-381 | Saving creates the project directory and its ancestors plus `module-info.properties`, stores the record there, and changes no bytes. |
| ModuleContainer.GetPath | src/com/liferay/netbeansproject/container/Module.java:240-248 | A missing key reads as null; a present one is parsed as a path. |
| ModuleContainer.Load | src/com/liferay/netbeansproject/container/Module.java:100-118 | No record when the file is missing. A failure when `module.path` is missing. Otherwise a module with the given project path and no dependency lists. |
| ModuleContainer.SaveLoadRoundTrip | src/com/liferay/netbeansproject/container/Module.java:100-118 | Loading a saved record gives back the module without its dependency lists, provided the checksum was taken from the current `build.gradle`. |
| ModuleContainer.SaveLoadEqual | src/com/liferay/netbeansproject/container/Module.java:93-148 | The record loaded after a save equals the saved module. |
| ModuleContainer.LibJars | src/com/liferay/netbeansproject/container/Module.java:53-57 | Exactly the children of `lib` whose name ends in `.jar`, none when `lib` is missing: existing paths two names below the module root, under `lib`. |
| ModuleContainer.LibJarsIsLocal | src/com/liferay/netbeansproject/container/Module.java:53-63 | The jars found depend only on the module's own subtree. |
| ModuleContainer.AppendLibJars | src/com/liferay/netbeansproject/container/Module.java:49-63 | The given list is kept as a prefix and followed by one `JarDependency(path, false)` per jar under `lib`, each jar exactly once. Without `lib` the list is unchanged. |
| ModuleContainer.CreateModule | src/com/liferay/netbeansproject/container/Module.java:44-98 | The module's compared fields are the resolvers' and the checksum's answers. Its jar list extends the given one (or an empty one) with the jars under `lib`. It has Gradle's module dependencies. The filesystem is unchanged without a project path and holds the saved record with one. |
| ModuleContainer.DescribeWellFormed | src/com/liferay/netbeansproject/container/Module.java:258-322 | A well-formed module root gives well-formed layout paths, so they survive the record's text round trip. |
| ModuleProject.ApplySteps | Module-Project/src/com/liferay/netbeansproject/ModuleProject.java:222-250 | The answer of the first check whose path exists (its path for a take, absent for a veto), or the fallback when none exists. |
| ModuleProject.LegacyResolveSourcePath | Module-Project/src/com/liferay/netbeansproject/ModuleProject.java:222-250 | `src/main/java` wins when it exists. An absent answer means `src/main` or `docroot/WEB-INF/src/main` exists. Any other answer exists on disk or is the bare `src`. |
| ModuleProject.LegacyResolveSourcePathFollowsSteps | Module-Project/src/com/liferay/netbeansproject/ModuleProject.java:222-250 | The resolver equals take `src/main/java`, veto `src/main`, take and veto the same below `docroot/WEB-INF`, take `docroot/WEB-INF/src`, with bare `src` as the fallback. |
| ModuleProject.LegacyResolveResourcePath | Module-Project/src/com/liferay/netbeansproject/ModuleProject.java:203-220 | `src/<type>/resources`, then the same below `docroot/WEB-INF`. The answer is absent exactly when neither exists. |
| ModuleProject.LegacyResolveTestPathIsFirstExisting | Module-Project/src/com/liferay/netbeansproject/ModuleProject.java:252-293 | The test resolver equals the first-existing rule over its candidates for the type. The top-level `src/test/java` is a candidate only for "unit", and `src/testIntegration/java` only for "integration". |
| ModuleProject.DocrootUnitTestsForAnyType | Module-Project/src/com/liferay/netbeansproject/ModuleProject.java:259-264 | As written, `docroot/WEB-INF/src/test/java` is returned for every test type, including integration lookups. |
| ModuleProject.Locate | Module-Project/src/com/liferay/netbeansproject/ModuleProject.java:154-161 | A `WEB-INF` directory stands for its grand-parent, and fails when that has no name. Any other directory stands for itself. The name is the file name of the resulting path. |
| ModuleProject.MakeModule | Module-Project/src/com/liferay/netbeansproject/ModuleProject.java:150-180 | Creation fails exactly when renormalisation fails. A created module sits at the renormalised directory (`dir`, or the grand-parent of a `WEB-INF`) and is named after it. Its six layout paths are the legacy resolvers' answers at that path, and its jar and dependency lists are the collaborators' answers there. Its source path is present unless a vetoing directory exists. |
| ModuleProject.BucketKey | Module-Project/src/com/liferay/netbeansproject/ModuleProject.java:186-190 | The parent itself, unless it is a `docroot`. Then the key is the parent's grand-parent, or null when the `docroot` lies directly below the filesystem root. |
| ModuleProject.Link | Module-Project/src/com/liferay/netbeansproject/ModuleProject.java:182-201 | The module is stored in its bucket under its name, replacing an earlier one of that name. Every other bucket and every other entry of the bucket is kept. |
| ModuleProject.CreatedSound | Module-Project/src/com/liferay/netbeansproject/ModuleProject.java:78-92 | Every created module is the one `_createModule` gives for some visited root. |
| ModuleProject.CreatedComplete | Module-Project/src/com/liferay/netbeansproject/ModuleProject.java:78-92 | Every root whose creation does not throw contributes its module. |
| ModuleProject.SettingsOneLinePerModule | Module-Project/src/com/liferay/netbeansproject/ModuleProject.java:167-169 | The settings text has exactly one line per created module whose name holds no line break. |
| ModuleProject.LinkEachFiles | Module-Project/src/com/liferay/netbeansproject/ModuleProject.java:80-85 | After the walk, every created module's bucket has an entry under its name. That entry is this module or one created later with the same bucket and name. |
| ModuleProject.LinkEachProvenance | Module-Project/src/com/liferay/netbeansproject/ModuleProject.java:80-85 | Every entry of the final map was already there or is a module created for a visited root. |
| ModuleProject.EventsOfEach | Module-Project/src/com/liferay/netbeansproject/ModuleProject.java:78-92 | One recorded step per root, in order: the build file written, or the failure logged. |
| ModuleProject.LegacyScan.CreateModule | Module-Project/src/com/liferay/netbeansproject/ModuleProject.java:150-180 | Returns the module `MakeModule` describes. It appends its `include` line to the settings and records the build-file write; when creation throws it changes neither. |
| ModuleProject.LegacyScan.LinkModule | Module-Project/src/com/liferay/netbeansproject/ModuleProject.java:182-201 | The project map becomes `Link` of the old one; nothing else changes. |
| ModuleProject.LegacyScan.Scan | Module-Project/src/com/liferay/netbeansproject/ModuleProject.java:44-98 | Returns exactly the module roots the black-listed walk reaches, distinct. The settings, map and log grow by the contributions of those roots in walk order, after the project directory is cleaned. |
| IncrementBuilder.IsSubstringIff | src/com/liferay/netbeansproject/IncrementBuilder.java:109-113 | The name test succeeds exactly when the name occurs at some offset of the `ignored.dirs` text. |
| IncrementBuilder.IgnoredAsText | src/com/liferay/netbeansproject/IncrementBuilder.java:86-113 | With `ignored.dirs` "node_modules,tmp", the directories "mod" and "s,t" are ignored too. |
| IncrementBuilder.RegenerationSteps | src/com/liferay/netbeansproject/IncrementBuilder.java:133-159 | Regeneration deletes the output directory first. It asks Gradle for jars exactly when `build.gradle` exists. |
| IncrementBuilder.NothingHappensWhenUnchanged | src/com/liferay/netbeansproject/IncrementBuilder.java:120-129 | A walk in which every root is unchanged records no step. |
| IncrementBuilder.SavedRecordIsCurrent | src/com/liferay/netbeansproject/IncrementBuilder.java:150-155 | A record saved outside the module's tree loads back equal to a fresh look at the module, so the next run leaves it alone. |
| IncrementBuilder.Builder.GetExistingProjects | src/com/liferay/netbeansproject/IncrementBuilder.java:174-190 | Fails exactly when `modules` is missing or some record lacks `module.path`, and the error names the missing directory or an unreadable record. Otherwise its keys are exactly the module paths of the loaded records, and each key maps to a loaded record that holds that module path. |
| IncrementBuilder.Builder.HandleRoot | src/com/liferay/netbeansproject/IncrementBuilder.java:119-168 | Unchanged exactly when a stored record equals a fresh look, and then nothing changes. Otherwise the module is regenerated from the fresh look, its record is current, and only `modules` changes. |
| IncrementBuilder.Builder.Regenerate | src/com/liferay/netbeansproject/IncrementBuilder.java:131-159 | Deletes then re-saves `modules/<name>` with the module, whose jars are Gradle's answer (when asked) followed by the `lib` jars. Records the steps in order and leaves the record current. |
| IncrementBuilder.Builder.AddModule | src/com/liferay/netbeansproject/IncrementBuilder.java:78-172 | Fails, changing nothing, exactly when a record is unreadable, `modules` is missing, or the portal is missing or the root, and the error names which. Otherwise it returns the existing records and the handled roots: exactly the module roots of the portal as it was, not nested, each classified as unchanged or regenerated. The log grows by exactly those roots' steps. Writes stay below `modules`, and the portal tree is unchanged. |
| IncrementBuilder.Builder.DispatchPortal | src/com/liferay/netbeansproject/IncrementBuilder.java:62-74 | When the portal's project directory exists, the outcome is everything `AddModule` promises for it (`PortalOutcome`): the roots, their classification, the log and the confinement of writes. Otherwise it records a full scan and changes nothing else. It fails exactly when the project exists and `AddModule` cannot add, with the error that explains it. |
| IncrementBuilder.Builder.Run | src/com/liferay/netbeansproject/IncrementBuilder.java:46-76 | Dispatches the portals in order. Each dispatched portal has the outcome `DispatchPortal` promises, against the filesystem and log the earlier portals left. On success every portal was dispatched, incrementally exactly when its project directory existed at the start, and each full scan is recorded. A failure names the portal that stopped the run and why, a root portal included. |

## Left out

- Real I/O. The filesystem is a value; reading and writing are functions on it.
- The MD5 digest and its hex encoding. They are the `digest` parameter.
- The text format of `.properties` files, including escaping. A record is stored and loaded as its key/value map.
- Logging, printing and `Level.SEVERE` output. A failure of `_createModule` is recorded as a `CreationFailed` event.
- Symbolic links. `FileVisitOption.FOLLOW_LINKS` makes no difference on a model without links.
- Files versus directories. A path exists or not, and the `*.jar` glob matches names, not file kinds.
- `FileUtil.unZip`, `CreateModule.createModule`, `ProjectBuilder.scanPortal`, `_createBuildGradleFile` and `_clean` are recorded as events only. Their classes are not part of this model.
- IncrementBuilder.Builder.DispatchPortal: a full scan does not change the modelled filesystem. A later portal with the same project directory name therefore still sees it missing, and `Run` states each portal's kind against the filesystem at the start.
- IncrementBuilder.Builder.AddModule: loading `project-dependency.properties` and `ModuleUtil.getPortalLibJars(portalPath)` are not modelled. Either can throw in the code; the properties only feed `Module.createModule`'s four-argument form and the jar list only the `CreateModule.createModule` event, so neither affects the modelled state.
- IncrementBuilder.Builder.HandleRoot: `GradleUtil.getModuleDependencies` is called on every fresh look, unchanged roots included, and is not recorded in the log. `NothingHappensWhenUnchanged` means that no step is logged, not that no collaborator is called.
- The collaborators never fail, so an exception from Gradle or from `ModuleUtil.getModuleName` is not modelled.
- IncrementBuilder.Builder.AddModule: requires the project directory and the portal tree to be unrelated paths. Requires the filesystem to be prefix-closed. Assumes `ignored.dirs` is present; a null property, which throws in the code, is not modelled.
- IncrementBuilder.Builder.AddModule: does not state that every saved record is current at the end. When two roots share a module name, the later one overwrites the earlier one's output directory. The per-root statement is on HandleRoot.
- IncrementBuilder.Builder.GetExistingProjects: directory-stream order is left open. When two records hold the same module path, the map keeps one of them, not necessarily the last one the stream lists.
- ModuleProject.LegacyScan.Scan: requires an existing portal directory other than the filesystem root. The code throws for a missing portal, or for a root with no file name.
- ModuleProject.LegacyScan.Scan: requires the project directory to be unrelated to the portal tree. Cleaning is recorded as an event whatever the filesystem holds. In the code `_clean` throws when the project directory is missing: the walk hands the missing start to `visitFileFailed`, which rethrows, so `main` stops before the portal walk. The model goes on.
- `IncrementBuilder` calls a four-argument `Module.createModule` that also takes project dependency properties. This repository's `Module.java` takes three parameters, and the model follows that version.
- `ModuleProject`'s own `Module` class is not part of this model. Its record is the `LegacyModule` datatype, and `getModuleName` is taken to return the name passed to its constructor.
- `ModuleProject` passes the resource type "integration" where `Module.java` uses "testIntegration". The model keeps each file's own string.
- Integer widths do not arise: no arithmetic of the source is modelled. The hash fold is over unbounded integers, with `HashUtil.hash` as a parameter.
