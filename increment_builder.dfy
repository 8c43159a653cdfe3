/**
 * The incremental rebuilder: for each portal whose project directory already
 * exists, it loads the records saved by earlier runs, walks the portal tree
 * and regenerates exactly the modules whose layout or `build.gradle` changed;
 * a portal without a project directory is handed to a full scan.
 */
module IncrementBuilder {
  import opened Wrappers
  import opened FilePaths
  import opened DiscoveryWalker
  import opened ModuleContainer

  // ---------------------------------------------------------------------
  // The `ignored.dirs` test

  /** `String.contains`: `n` occurs in `s` as a contiguous piece. */
  predicate IsSubstring(n: string, s: string)
    decreases |s|
  {
    if |n| > |s| then false
    else s[..|n|] == n || (|s| > 0 && IsSubstring(n, s[1..]))
  }

  /** `s` spells `n` from offset `i` on. */
  predicate OccursAt(n: string, s: string, i: int) {
    0 <= i && i + |n| <= |s| && s[i..i + |n|] == n
  }

  /** The recursive test agrees with the reading "at some offset `s` spells `n`". */
  lemma {:induction false} IsSubstringIff(n: string, s: string)
    ensures IsSubstring(n, s) <==> exists i :: OccursAt(n, s, i)
    decreases |s|
  {
    if |n| <= |s| {
      if |s| > 0 {
        IsSubstringIff(n, s[1..]);
        if IsSubstring(n, s) {
          if s[..|n|] == n {
            assert OccursAt(n, s, 0);
          } else {
            var i :| OccursAt(n, s[1..], i);
            assert s[i + 1..i + 1 + |n|] == s[1..][i..i + |n|];
            assert OccursAt(n, s, i + 1);
          }
        }
        if exists i :: OccursAt(n, s, i) {
          var i :| OccursAt(n, s, i);
          if i > 0 {
            assert s[1..][i - 1..i - 1 + |n|] == s[i..i + |n|];
            assert OccursAt(n, s[1..], i - 1);
          } else {
            assert s[..|n|] == s[0..0 + |n|];
          }
        }
      } else {
        assert OccursAt(n, s, 0);
      }
    }
  }

  /** The visitor's name test: the name occurs somewhere in the `ignored.dirs` text. */
  function IgnoredBy(ignoredDirs: string): string -> bool {
    name => IsSubstring(name, ignoredDirs)
  }

  /**
   * As written, `ignored.dirs` is searched as text, not split into names: with
   * "node_modules,tmp" a directory named "mod" is ignored too.
   */
  lemma IgnoredAsText()
    ensures IgnoredBy("node_modules,tmp")("mod")
    ensures IgnoredBy("node_modules,tmp")("s,t")
  {
    var dirs := "node_modules,tmp";
    assert dirs[5] == 'm' && dirs[6] == 'o' && dirs[7] == 'd';
    assert dirs[5..8] == "mod";
    assert OccursAt("mod", dirs, 5);
    IsSubstringIff("mod", dirs);
    assert dirs[11] == 's' && dirs[12] == ',' && dirs[13] == 't';
    assert dirs[11..14] == "s,t";
    assert OccursAt("s,t", dirs, 11);
    IsSubstringIff("s,t", dirs);
  }

  // ---------------------------------------------------------------------
  // Values of the builder

  /** What the builder does that the model leaves as a recorded step. */
  datatype Event =
    | Deleted(dir: Path)                       // `FileUtil.delete` of the module's output directory
    | JarsQueried(moduleDir: Path)             // `GradleUtil.getJarDependencies`
    | Unzipped(dir: Path)                      // `FileUtil.unZip` of the project template
    | Generated(moduleDir: Path, projectRoot: Path)  // `CreateModule.createModule`
    | FullScan(projectPath: Path, portal: Path)      // `ProjectBuilder.scanPortal`

  /**
   * The collaborators the builder calls: the checksum digest of
   * `build.gradle`'s bytes, `GradleUtil.getModuleDependencies`,
   * `ModuleUtil.getModuleName` and `GradleUtil.getJarDependencies`.
   */
  datatype Collaborators = Collaborators(
    digest: Bytes -> string,
    moduleDependencies: Path -> seq<ModuleDependency>,
    moduleName: Path -> string,
    jarDependencies: (Path, Path) -> map<string, seq<JarDependency>>)

  /** Why a run stops with an exception. */
  datatype BuildError =
    | NoModulesDirectory(dir: Path)   // the directory stream over `modules` cannot be opened
    | UnreadableRecord(dir: Path)     // a record without `module.path`
    | MissingPortal(portal: Path)     // the walk cannot start
    | RootPortal                      // a portal directory without a file name

  /** What the visitor did with one module root. */
  datatype Outcome = Unchanged | Regenerated(saved: Module)

  datatype Handled = Handled(root: Path, outcome: Outcome)

  /** How `main` dealt with one portal. */
  datatype Dispatch = Incremental(handled: seq<Handled>, existing: map<Path, Module>) | FullScanned

  function ModulesDir(projectRoot: Path): Path {
    projectRoot + ["modules"]
  }

  /** `modules/<name>` below the project root: where a module's project is generated. */
  function OutputDir(projectRoot: Path, name: string): Path {
    ModulesDir(projectRoot) + [name]
  }

  /** The jar list `createModule` is given: the Gradle answer for the module's name, when Gradle is asked. */
  function GivenJars(fs: FileSystem, portal: Path, path: Path, co: Collaborators): Option<seq<JarDependency>> {
    var jarMap := if path + [BuildGradle] in fs.paths then co.jarDependencies(portal, path) else map[];
    var name := co.moduleName(path);
    if name in jarMap then Some(jarMap[name]) else None
  }

  /** The steps of regenerating the module at `path`: delete first, ask Gradle only when there is a build file. */
  function RegenerationSteps(fs: FileSystem, projectRoot: Path, path: Path, co: Collaborators): (r: seq<Event>)
    ensures |r| > 0 && r[0] == Deleted(OutputDir(projectRoot, co.moduleName(path)))
    ensures JarsQueried(path) in r <==> path + [BuildGradle] in fs.paths
  {
    var out := OutputDir(projectRoot, co.moduleName(path));
    [Deleted(out)] + (if path + [BuildGradle] in fs.paths then [JarsQueried(path)] else [])
    + [Unzipped(out), Generated(path, projectRoot)]
  }

  /** The steps recorded for the handled roots, in order; an unchanged root records none. */
  function StepsOf(fs: FileSystem, projectRoot: Path, handled: seq<Handled>, co: Collaborators): seq<Event>
    decreases |handled|
  {
    if handled == [] then []
    else
      var last := handled[|handled| - 1];
      StepsOf(fs, projectRoot, handled[..|handled| - 1], co)
      + if last.outcome.Unchanged? then [] else RegenerationSteps(fs, projectRoot, last.root, co)
  }

  /** Nothing is deleted or generated for a run in which every root is unchanged. */
  lemma {:induction false} NothingHappensWhenUnchanged(fs: FileSystem, projectRoot: Path, handled: seq<Handled>,
                                                       co: Collaborators)
    requires forall i :: 0 <= i < |handled| ==> handled[i].outcome.Unchanged?
    ensures StepsOf(fs, projectRoot, handled, co) == []
    decreases |handled|
  {
    if handled != [] {
      NothingHappensWhenUnchanged(fs, projectRoot, handled[..|handled| - 1], co);
    }
  }

  lemma StepsAssociate(log: seq<Event>, first: Event, middle: seq<Event>, third: Event, last: Event)
    ensures log + [first] + middle + [third] + [last] == log + ([first] + middle + [third, last])
  {
  }

  /** The record saved in `modules/<name>` loads back as the module at `path`, as it is now on disk. */
  ghost predicate RecordCurrent(fs: FileSystem, out: Path, path: Path, digest: Bytes -> string) {
    && Load(fs, out).Loaded?
    && Load(fs, out).loaded.modulePath == path
    && IdentityOf(Load(fs, out).loaded) == Describe(fs, path, digest)
  }

  // ---------------------------------------------------------------------
  // Saving below `modules`

  /** Saving a record in `modules/<name>` of a prefix-closed filesystem changes nothing outside `modules`. */
  lemma SaveFsChangesOnlyBelow(fs: FileSystem, m: Module, digest: Bytes -> string, modules: Path, name: string)
    requires PrefixClosed(fs) && modules in fs.paths && m.projectPath == Some(modules + [name])
    ensures ChangesOnlyBelow(fs, SaveFs(fs, m, digest), modules)
    ensures PrefixClosed(SaveFs(fs, m, digest))
  {
    var out := modules + [name];
    var r := SaveFs(fs, m, digest);
    forall p | !(modules < p) && p in r.paths ensures p in fs.paths {
      if p <= out {
        assert p <= modules;
        assert p == modules[..|p|];
      } else {
        assert p != out + [ModuleInfo] by {
          assert modules < out + [ModuleInfo];
        }
      }
    }
    forall p | !(modules < p) ensures (p in fs.records <==> p in r.records) {
      assert p != out + [ModuleInfo] by {
        assert modules < out + [ModuleInfo];
      }
    }
    forall p, k | p in r.paths && 0 <= k <= |p| ensures p[..k] in r.paths {
      if p !in fs.paths && p != out + [ModuleInfo] {
        assert p[..k] <= out;
      } else if p == out + [ModuleInfo] && k <= |out| {
        assert p[..k] <= out;
      } else if p == out + [ModuleInfo] {
        assert p[..k] == p;
      }
    }
  }

  /**
   * A record saved for the module at `path` in a directory unrelated to it
   * loads back as a module equal to the one a fresh look at `path` gives:
   * the next run finds it unchanged.
   */
  lemma SavedRecordIsCurrent(fs: FileSystem, m: Module, path: Path, digest: Bytes -> string)
    requires m.projectPath.Some? && Unrelated(m.projectPath.value, path) && WellFormed(path)
    requires m.modulePath == path && IdentityOf(m) == Describe(fs, path, digest)
    ensures RecordCurrent(SaveFs(fs, m, digest), m.projectPath.value, path, digest)
  {
    var out := m.projectPath.value;
    var saved := SaveFs(fs, m, digest);
    DescribeWellFormed(fs, path, digest);
    SaveLoadRoundTrip(fs, m, digest);
    forall p | path <= p ensures p in fs.paths <==> p in saved.paths {
      UnrelatedSubtrees(out, path, out, p);
    }
    DescribeIsLocal(fs, saved, path, digest);
  }

  /**
   * `fs2` is `fs1` after regenerating the module at `path`: the output
   * directory `modules/<name>` is replaced by the record of `saved`, a module
   * whose compared fields are what `createModule` computes on `fs1` and whose
   * jar list is Gradle's answer followed by the jars under `lib`.
   */
  ghost predicate Regenerates(fs1: FileSystem, fs2: FileSystem, projectRoot: Path, portal: Path, path: Path,
                              co: Collaborators, saved: Module)
  {
    var out := OutputDir(projectRoot, co.moduleName(path));
    && saved.projectPath == Some(out)
    && IdentityOf(saved) == Describe(fs1, path, co.digest)
    && saved.moduleDependencies == Some(co.moduleDependencies(path))
    && saved.jarDependencies.Some?
    && AppendsEach(GivenJars(fs1, portal, path, co).GetOr([]), saved.jarDependencies.value, LibJars(fs1, path))
    && fs2 == SaveFs(DeleteTree(fs1, out), saved, co.digest)
  }

  /**
   * The visitor's verdict on `h` is the one `addModule` promises: the root is
   * left alone exactly when its stored record equals what `createModule`
   * computes on `fs`, and is otherwise regenerated into `modules/<name>`
   * from that computation.
   */
  ghost predicate Classified(fs: FileSystem, projectRoot: Path, existing: map<Path, Module>, h: Handled,
                             co: Collaborators)
  {
    && (h.outcome.Unchanged? <==>
         h.root in existing && IdentityOf(existing[h.root]) == Describe(fs, h.root, co.digest))
    && (h.outcome.Regenerated? ==>
         && h.outcome.saved.projectPath == Some(OutputDir(projectRoot, co.moduleName(h.root)))
         && IdentityOf(h.outcome.saved) == Describe(fs, h.root, co.digest))
  }

  ghost predicate AllClassified(fs: FileSystem, projectRoot: Path, existing: map<Path, Module>, handled: seq<Handled>,
                                co: Collaborators)
  {
    forall j :: 0 <= j < |handled| ==> Classified(fs, projectRoot, existing, handled[j], co)
  }

  lemma AllClassifiedAppend(fs: FileSystem, projectRoot: Path, existing: map<Path, Module>, handled: seq<Handled>,
                            h: Handled, co: Collaborators)
    requires AllClassified(fs, projectRoot, existing, handled, co) && Classified(fs, projectRoot, existing, h, co)
    ensures AllClassified(fs, projectRoot, existing, handled + [h], co)
  {
  }

  /** The roots the walk handled, in order. */
  function Roots(handled: seq<Handled>): (r: seq<Path>)
    ensures |r| == |handled| && forall i :: 0 <= i < |handled| ==> r[i] == handled[i].root
  {
    seq(|handled|, i requires 0 <= i < |handled| => handled[i].root)
  }

  lemma RootsAppend(handled: seq<Handled>, h: Handled)
    ensures Roots(handled + [h]) == Roots(handled) + [h.root]
  {
  }

  lemma StepsOfAppend(fs: FileSystem, projectRoot: Path, handled: seq<Handled>, h: Handled, co: Collaborators)
    ensures StepsOf(fs, projectRoot, handled + [h], co)
      == StepsOf(fs, projectRoot, handled, co)
         + if h.outcome.Unchanged? then [] else RegenerationSteps(fs, projectRoot, h.root, co)
  {
    assert (handled + [h])[..|handled|] == handled;
  }

  /** The regeneration steps depend only on the module's own subtree. */
  lemma RegenerationStepsAreLocal(fs1: FileSystem, fs2: FileSystem, projectRoot: Path, path: Path, co: Collaborators)
    requires SameSubtree(fs1, fs2, path)
    ensures RegenerationSteps(fs1, projectRoot, path, co) == RegenerationSteps(fs2, projectRoot, path, co)
  {
    assert path <= path + [BuildGradle];
  }

  /** `main`'s project directory for a portal: the project directory's child of the portal's name. */
  function PortalProjectPath(projectDir: Path, portal: Path): Path
    requires |portal| > 0
  {
    projectDir + [portal[|portal| - 1]]
  }

  /** The records `_getExistingProjects` finds below `modules`, keyed by the module path each one holds. */
  ghost predicate ExistingRecords(fs: FileSystem, projectRoot: Path, existing: map<Path, Module>) {
    && (forall p :: p in existing <==>
         exists c :: c in Children(fs, ModulesDir(projectRoot)) && Load(fs, c).Loaded? && Load(fs, c).loaded.modulePath == p)
    && (forall p :: p in existing ==>
         existing[p].modulePath == p &&
         exists c :: c in Children(fs, ModulesDir(projectRoot)) && Load(fs, c) == Loaded(existing[p]))
  }

  /** `addModule` throws: `modules` is missing, a record is unreadable, or the portal is the root or missing. */
  ghost predicate CannotAdd(fs: FileSystem, projectRoot: Path, portal: Path) {
    || ModulesDir(projectRoot) !in fs.paths
    || (exists c :: c in Children(fs, ModulesDir(projectRoot)) && Load(fs, c).Unreadable?)
    || portal == [] || portal !in fs.paths
  }

  /** The error names a cause that holds on `fs`. */
  ghost predicate Explains(fs: FileSystem, projectRoot: Path, portal: Path, e: BuildError) {
    match e
    case NoModulesDirectory(d) => d == ModulesDir(projectRoot) && d !in fs.paths
    case UnreadableRecord(c) => c in Children(fs, ModulesDir(projectRoot)) && Load(fs, c).Unreadable?
    case MissingPortal(p) => p == portal && portal !in fs.paths
    case RootPortal => portal == []
  }

  /**
   * What a successful `addModule` computed on `fs`: the stored records, the
   * module roots of the portal in walk order, none inside another, and for
   * each of them the visitor's verdict.
   */
  ghost predicate AddedAll(fs: FileSystem, projectRoot: Path, portal: Path, ignoredDirs: string, co: Collaborators,
                           handled: seq<Handled>, existing: map<Path, Module>)
  {
    && ExistingRecords(fs, projectRoot, existing)
    && (forall d :: d in Roots(handled) <==> IsModuleRoot(fs, portal, IgnoredBy(ignoredDirs), d))
    && (forall i, j :: 0 <= i < |handled| && 0 <= j < |handled| && i != j ==> !(handled[i].root <= handled[j].root))
    && AllClassified(fs, projectRoot, existing, handled, co)
  }

  /** The walk's roots, handled in order and each classified, are what `addModule` promises. */
  lemma AddedAllIntro(fs: FileSystem, projectRoot: Path, portal: Path, ignoredDirs: string, co: Collaborators,
                      roots: seq<Path>, handled: seq<Handled>, existing: map<Path, Module>)
    requires ExistingRecords(fs, projectRoot, existing)
    requires forall d :: d in roots <==> IsModuleRoot(fs, portal, IgnoredBy(ignoredDirs), d)
    requires forall i, j :: 0 <= i < |roots| && 0 <= j < |roots| && i != j ==> !(roots[i] <= roots[j])
    requires Roots(handled) == roots
    requires AllClassified(fs, projectRoot, existing, handled, co)
    ensures AddedAll(fs, projectRoot, portal, ignoredDirs, co, handled, existing)
  {
  }

  /**
   * One portal of `main`, taking the filesystem from `fs0` to `fs1` and the
   * log from `log0` to `log1`: `addModule` ran exactly when the portal's
   * project directory existed, succeeded, did what `AddedAll` says, recorded
   * its steps and wrote only below `modules`; otherwise a full scan was
   * recorded and nothing else changed.
   */
  ghost predicate PortalOutcome(fs0: FileSystem, fs1: FileSystem, log0: seq<Event>, log1: seq<Event>,
                                projectDir: Path, portal: Path, ignoredDirs: string, co: Collaborators, d: Dispatch)
  {
    |portal| > 0 &&
    var projectPath := PortalProjectPath(projectDir, portal);
    && (d.Incremental? <==> projectPath in fs0.paths)
    && (d.Incremental? ==>
         && !CannotAdd(fs0, projectPath, portal)
         && AddedAll(fs0, projectPath, portal, ignoredDirs, co, d.handled, d.existing)
         && log1 == log0 + StepsOf(fs0, projectPath, d.handled, co)
         && ChangesOnlyBelow(fs0, fs1, ModulesDir(projectPath)))
    && (d.FullScanned? ==> fs1 == fs0 && log1 == log0 + [FullScan(projectPath, portal)])
  }

  /** Each portal dispatched so far took its stage of the filesystem and the log to the next one. */
  ghost predicate Outcomes(stages: seq<FileSystem>, logs: seq<seq<Event>>, done: seq<Dispatch>,
                           projectDir: Path, portals: seq<Path>, ignoredDirs: string, co: Collaborators)
  {
    && |stages| == |logs| == |done| + 1 && |done| <= |portals|
    && forall i :: 0 <= i < |done| ==>
         PortalOutcome(stages[i], stages[i + 1], logs[i], logs[i + 1], projectDir, portals[i], ignoredDirs, co, done[i])
  }

  /**
   * The state of `main` after the portals `done`: the stages lead from `fs0`
   * and `log0` to `fs` and `log`, no path at the project directory's depth or
   * above has changed, and each dispatched portal ran incrementally exactly
   * when its project directory existed at the start, its full scan recorded
   * otherwise.
   */
  ghost predicate RunSoFar(fs0: FileSystem, log0: seq<Event>, fs: FileSystem, log: seq<Event>,
                           stages: seq<FileSystem>, logs: seq<seq<Event>>, done: seq<Dispatch>,
                           projectDir: Path, portals: seq<Path>, ignoredDirs: string, co: Collaborators)
  {
    && Outcomes(stages, logs, done, projectDir, portals, ignoredDirs, co)
    && stages[0] == fs0 && logs[0] == log0 && stages[|done|] == fs && logs[|done|] == log
    && PrefixClosed(fs)
    && (forall p :: |p| <= |projectDir| + 1 ==> (p in fs.paths <==> p in fs0.paths))
    && KindsSoFar(fs0, log, done, projectDir, portals)
  }

  /** Every portal dispatched so far was incremental exactly when its project existed at the start,
      and every full scan is in the log. */
  ghost predicate KindsSoFar(fs0: FileSystem, log: seq<Event>, done: seq<Dispatch>, projectDir: Path, portals: seq<Path>)
  {
    && |done| <= |portals|
    && (forall j :: 0 <= j < |done| ==>
         |portals[j]| > 0 && (done[j].Incremental? <==> PortalProjectPath(projectDir, portals[j]) in fs0.paths))
    && (forall j :: 0 <= j < |done| && done[j].FullScanned? ==>
         FullScan(PortalProjectPath(projectDir, portals[j]), portals[j]) in log)
  }

  lemma KindsSoFarExtend(fs0: FileSystem, log: seq<Event>, done: seq<Dispatch>, projectDir: Path, portals: seq<Path>,
                         log1: seq<Event>, d: Dispatch)
    requires KindsSoFar(fs0, log, done, projectDir, portals) && |done| < |portals| && |portals[|done|]| > 0
    requires d.Incremental? <==> PortalProjectPath(projectDir, portals[|done|]) in fs0.paths
    requires d.FullScanned? ==> FullScan(PortalProjectPath(projectDir, portals[|done|]), portals[|done|]) in log1
    requires forall e :: e in log ==> e in log1
    ensures KindsSoFar(fs0, log1, done + [d], projectDir, portals)
  {
    var ds := done + [d];
    forall j | 0 <= j < |ds| && ds[j].FullScanned?
      ensures FullScan(PortalProjectPath(projectDir, portals[j]), portals[j]) in log1
    {
      if j < |done| {
        assert ds[j] == done[j];
      }
    }
    forall j | 0 <= j < |ds|
      ensures |portals[j]| > 0 && (ds[j].Incremental? <==> PortalProjectPath(projectDir, portals[j]) in fs0.paths)
    {
      if j < |done| {
        assert ds[j] == done[j];
      }
    }
  }

  /** Dispatching one more portal extends the state of `main` by one stage. */
  lemma RunSoFarExtend(fs0: FileSystem, log0: seq<Event>, fs: FileSystem, log: seq<Event>,
                       stages: seq<FileSystem>, logs: seq<seq<Event>>, done: seq<Dispatch>,
                       projectDir: Path, portals: seq<Path>, ignoredDirs: string, co: Collaborators,
                       fs1: FileSystem, log1: seq<Event>, d: Dispatch)
    requires RunSoFar(fs0, log0, fs, log, stages, logs, done, projectDir, portals, ignoredDirs, co)
    requires |done| < |portals| && |portals[|done|]| > 0
    requires Outcomes(stages + [fs1], logs + [log1], done + [d], projectDir, portals, ignoredDirs, co)
    requires d.Incremental? <==> PortalProjectPath(projectDir, portals[|done|]) in fs.paths
    requires d.FullScanned? ==> log1 == log + [FullScan(PortalProjectPath(projectDir, portals[|done|]), portals[|done|])]
    requires PrefixClosed(fs1) && forall e :: e in log ==> e in log1
    requires forall p :: |p| <= |projectDir| + 1 ==> (p in fs1.paths <==> p in fs.paths)
    ensures RunSoFar(fs0, log0, fs1, log1, stages + [fs1], logs + [log1], done + [d], projectDir, portals, ignoredDirs, co)
  {
    var portal := portals[|done|];
    var projectPath := PortalProjectPath(projectDir, portal);
    assert |projectPath| <= |projectDir| + 1;
    assert projectPath in fs.paths <==> projectPath in fs0.paths;
    assert d.FullScanned? ==> FullScan(projectPath, portal) in log1 by {
      if d.FullScanned? {
        assert log1[|log|] == FullScan(projectPath, portal);
      }
    }
    KindsSoFarExtend(fs0, log, done, projectDir, portals, log1, d);
  }

  lemma OutcomesExtend(stages: seq<FileSystem>, logs: seq<seq<Event>>, done: seq<Dispatch>,
                       projectDir: Path, portals: seq<Path>, ignoredDirs: string, co: Collaborators,
                       fs1: FileSystem, log1: seq<Event>, d: Dispatch)
    requires Outcomes(stages, logs, done, projectDir, portals, ignoredDirs, co) && |done| < |portals|
    requires PortalOutcome(stages[|done|], fs1, logs[|done|], log1, projectDir, portals[|done|], ignoredDirs, co, d)
    ensures Outcomes(stages + [fs1], logs + [log1], done + [d], projectDir, portals, ignoredDirs, co)
  {
    var s, l, ds := stages + [fs1], logs + [log1], done + [d];
    forall i | 0 <= i < |ds|
      ensures PortalOutcome(s[i], s[i + 1], l[i], l[i + 1], projectDir, portals[i], ignoredDirs, co, ds[i])
    {
      assert s[i] == stages[i] && l[i] == logs[i];
      if i < |done| {
        assert s[i + 1] == stages[i + 1] && l[i + 1] == logs[i + 1] && ds[i] == done[i];
      }
    }
  }

  /** How one portal stops `main`: it has no name, or `addModule` throws on its existing project directory. */
  ghost predicate DispatchFails(fs: FileSystem, projectDir: Path, portal: Path, e: BuildError) {
    if portal == [] then e == RootPortal
    else
      var projectPath := PortalProjectPath(projectDir, portal);
      projectPath in fs.paths && CannotAdd(fs, projectPath, portal) && Explains(fs, projectPath, portal, e)
  }

  // ---------------------------------------------------------------------
  // The builder

  /** The state the builder changes: the filesystem and the recorded steps. */
  class Builder {
    var fs: FileSystem
    ghost var log: seq<Event>

    constructor (fs0: FileSystem)
      ensures fs == fs0 && log == []
    {
      fs := fs0;
      log := [];
    }

    /**
     * `_getExistingProjects`: the records below `modules`, by the module path
     * they hold; a directory without a record contributes nothing, and a
     * missing `modules` directory or a record without `module.path` stops
     * the run.
     */
    method GetExistingProjects(projectRoot: Path) returns (r: Result<map<Path, Module>, BuildError>)
      ensures r.Failure? ==> r.error.NoModulesDirectory? || r.error.UnreadableRecord?
      ensures r.Failure? && r.error.NoModulesDirectory? ==>
        r.error.dir == ModulesDir(projectRoot) && ModulesDir(projectRoot) !in fs.paths
      ensures r.Failure? && r.error.UnreadableRecord? ==>
        r.error.dir in Children(fs, ModulesDir(projectRoot)) && Load(fs, r.error.dir).Unreadable?
      ensures ModulesDir(projectRoot) !in fs.paths ==> r == Failure(NoModulesDirectory(ModulesDir(projectRoot)))
      ensures r.Failure? <==>
        ModulesDir(projectRoot) !in fs.paths
        || exists c :: c in Children(fs, ModulesDir(projectRoot)) && Load(fs, c).Unreadable?
      ensures r.Success? ==> ExistingRecords(fs, projectRoot, r.value)
    {
      var modules := ModulesDir(projectRoot);
      if modules !in fs.paths {
        return Failure(NoModulesDirectory(modules));
      }
      var remaining := Children(fs, modules);
      ghost var all := remaining;
      var found: map<Path, Module> := map[];
      while remaining != {}
        invariant remaining <= all
        invariant forall c :: c in all - remaining ==> !Load(fs, c).Unreadable?
        invariant forall p :: p in found <==>
          exists c :: c in all - remaining && Load(fs, c).Loaded? && Load(fs, c).loaded.modulePath == p
        invariant forall p :: p in found ==> found[p].modulePath == p
        invariant forall p :: p in found ==> exists c :: c in all - remaining && Load(fs, c) == Loaded(found[p])
        decreases remaining
      {
        var c :| c in remaining;
        var loaded := Load(fs, c);
        if loaded.Unreadable? {
          return Failure(UnreadableRecord(c));
        }
        ghost var before, previous := remaining, found;
        remaining := remaining - {c};
        if loaded.Loaded? {
          found := found[loaded.loaded.modulePath := loaded.loaded];
        }
        forall p | p in found ensures exists c' :: c' in all - remaining && Load(fs, c') == Loaded(found[p]) {
          if loaded.Loaded? && p == loaded.loaded.modulePath {
            assert Load(fs, c) == Loaded(found[p]);
          } else {
            var c' :| c' in all - before && Load(fs, c') == Loaded(previous[p]);
            assert c' in all - remaining;
          }
        }
      }
      assert all - remaining == all;
      r := Success(found);
    }

    /**
     * The visitor's work for a root with `src`: when the stored record equals
     * a fresh look at the module, nothing happens; otherwise the module is
     * regenerated.
     */
    method HandleRoot(projectRoot: Path, portal: Path, path: Path, existing: map<Path, Module>,
                      co: Collaborators) returns (outcome: Outcome)
      requires PrefixClosed(fs) && ModulesDir(projectRoot) in fs.paths
      requires Unrelated(projectRoot, portal) && portal <= path
      modifies this
      ensures outcome.Unchanged? <==>
        path in existing && IdentityOf(existing[path]) == Describe(old(fs), path, co.digest)
      ensures outcome.Unchanged? ==> fs == old(fs) && log == old(log)
      ensures outcome.Regenerated? ==> Regenerates(old(fs), fs, projectRoot, portal, path, co, outcome.saved)
      ensures outcome.Regenerated? ==> log == old(log) + RegenerationSteps(old(fs), projectRoot, path, co)
      ensures outcome.Regenerated? && WellFormed(path) ==>
        RecordCurrent(fs, OutputDir(projectRoot, co.moduleName(path)), path, co.digest)
      ensures PrefixClosed(fs) && ChangesOnlyBelow(old(fs), fs, ModulesDir(projectRoot))
    {
      if path in existing {
        var current, unsaved := CreateModule(fs, None, path, None, co.digest, co.moduleDependencies);
        if Equal(existing[path], current) {
          return Unchanged;
        }
      }
      var saved := Regenerate(projectRoot, portal, path, co);
      outcome := Regenerated(saved);
    }

    /**
     * Regenerating the module at `path`: its output directory is deleted,
     * Gradle is asked for the jars when there is a `build.gradle`, the
     * template is unpacked, the module is created with its record saved in
     * the output directory, and the project is generated.
     */
    method Regenerate(projectRoot: Path, portal: Path, path: Path, co: Collaborators) returns (saved: Module)
      requires PrefixClosed(fs) && ModulesDir(projectRoot) in fs.paths
      requires Unrelated(projectRoot, portal) && portal <= path
      modifies this
      ensures Regenerates(old(fs), fs, projectRoot, portal, path, co, saved)
      ensures log == old(log) + RegenerationSteps(old(fs), projectRoot, path, co)
      ensures WellFormed(path) ==> RecordCurrent(fs, OutputDir(projectRoot, co.moduleName(path)), path, co.digest)
      ensures PrefixClosed(fs) && ChangesOnlyBelow(old(fs), fs, ModulesDir(projectRoot))
    {
      ghost var fs0, log0 := fs, log;
      var name := co.moduleName(path);
      var out := OutputDir(projectRoot, name);
      UnrelatedSubtrees(projectRoot, portal, out, path);
      fs := DeleteTree(fs, out);
      log := log + [Deleted(out)];
      DeleteTreePrefixClosed(fs0, out);
      DeleteTreeChangesOnlyBelow(fs0, ModulesDir(projectRoot), name);
      ChangesOnlyBelowKeepsSubtree(fs0, fs, ModulesDir(projectRoot), projectRoot, path);
      DescribeIsLocal(fs0, fs, path, co.digest);
      LibJarsIsLocal(fs0, fs, path);
      assert path <= path + [BuildGradle];
      var jarMap: map<string, seq<JarDependency>> := map[];
      ghost var queried: seq<Event> := [];
      if path + [BuildGradle] in fs.paths {
        queried := [JarsQueried(path)];
        jarMap := co.jarDependencies(portal, path);
      }
      log := log + queried;
      assert queried == (if path + [BuildGradle] in fs0.paths then [JarsQueried(path)] else []);
      ghost var steps := [Deleted(out)] + queried + [Unzipped(out), Generated(path, projectRoot)];
      assert RegenerationSteps(fs0, projectRoot, path, co) == steps;
      log := log + [Unzipped(out)];
      var jars := if name in jarMap then Some(jarMap[name]) else None;
      ghost var deleted := fs;
      var created, written := CreateModule(fs, Some(out), path, jars, co.digest, co.moduleDependencies);
      fs := written;
      log := log + [Generated(path, projectRoot)];
      StepsAssociate(log0, Deleted(out), queried, Unzipped(out), Generated(path, projectRoot));
      assert log == log0 + steps;
      saved := created;
      assert ModulesDir(projectRoot) in deleted.paths;
      SaveFsChangesOnlyBelow(deleted, created, co.digest, ModulesDir(projectRoot), name);
      ChangesOnlyBelowTransitive(fs0, deleted, fs, ModulesDir(projectRoot));
      if WellFormed(path) {
        SavedRecordIsCurrent(deleted, created, path, co.digest);
      }
    }

    /** One visit of the walk, stated against the filesystem as it was when the walk began. */
    method VisitRoot(projectRoot: Path, portal: Path, root: Path, existing: map<Path, Module>, co: Collaborators,
                     ghost fs0: FileSystem, ghost log0: seq<Event>, ghost handled: seq<Handled>)
      returns (h: Handled)
      requires PrefixClosed(fs) && ChangesOnlyBelow(fs0, fs, ModulesDir(projectRoot)) && ModulesDir(projectRoot) in fs0.paths
      requires Unrelated(projectRoot, portal) && portal <= root
      requires log == log0 + StepsOf(fs0, projectRoot, handled, co)
      modifies this
      ensures h.root == root && Classified(fs0, projectRoot, existing, h, co)
      ensures log == log0 + StepsOf(fs0, projectRoot, handled + [h], co)
      ensures PrefixClosed(fs) && ChangesOnlyBelow(fs0, fs, ModulesDir(projectRoot))
    {
      ChangesOnlyBelowKeepsSubtree(fs0, fs, ModulesDir(projectRoot), projectRoot, portal);
      SameSubtreeBelow(fs0, fs, portal, root);
      DescribeIsLocal(fs0, fs, root, co.digest);
      RegenerationStepsAreLocal(fs0, fs, projectRoot, root, co);
      ghost var before := fs;
      var outcome := HandleRoot(projectRoot, portal, root, existing, co);
      ChangesOnlyBelowTransitive(fs0, before, fs, ModulesDir(projectRoot));
      h := Handled(root, outcome);
      StepsOfAppend(fs0, projectRoot, handled, h, co);
      if outcome.Regenerated? {
        AppendAssociates(log0, StepsOf(fs0, projectRoot, handled, co), RegenerationSteps(fs0, projectRoot, root, co));
      }
    }

    /** The visitor's work for each discovered root, in the order of the walk. */
    method VisitAll(projectRoot: Path, portal: Path, roots: seq<Path>, existing: map<Path, Module>, co: Collaborators)
      returns (handled: seq<Handled>)
      requires PrefixClosed(fs) && ModulesDir(projectRoot) in fs.paths && Unrelated(projectRoot, portal)
      requires forall k :: 0 <= k < |roots| ==> portal <= roots[k]
      modifies this
      ensures Roots(handled) == roots
      ensures AllClassified(old(fs), projectRoot, existing, handled, co)
      ensures log == old(log) + StepsOf(old(fs), projectRoot, handled, co)
      ensures PrefixClosed(fs) && ChangesOnlyBelow(old(fs), fs, ModulesDir(projectRoot))
    {
      ghost var fs0, log0 := fs, log;
      handled := [];
      var i := 0;
      while i < |roots|
        invariant 0 <= i <= |roots| && |handled| == i
        invariant Roots(handled) == roots[..i]
        invariant AllClassified(fs0, projectRoot, existing, handled, co)
        invariant log == log0 + StepsOf(fs0, projectRoot, handled, co)
        invariant PrefixClosed(fs) && ChangesOnlyBelow(fs0, fs, ModulesDir(projectRoot))
      {
        var h := VisitRoot(projectRoot, portal, roots[i], existing, co, fs0, log0, handled);
        RootsAppend(handled, h);
        AllClassifiedAppend(fs0, projectRoot, existing, handled, h, co);
        PrefixExtends(roots, i);
        handled := handled + [h];
        i := i + 1;
      }
      assert roots[..i] == roots;
    }

    /**
     * `addModule`: loads the stored records, walks the portal from its root,
     * skipping directories whose name occurs in `ignoredDirs` and pruning
     * below every directory with `src`, and hands each such directory to the
     * visitor in the order the walk meets them. The walk sees the portal as
     * it was at the start, since everything written goes below `modules`.
     */
    method AddModule(projectRoot: Path, portal: Path, ignoredDirs: string, co: Collaborators)
      returns (r: Result<seq<Handled>, BuildError>, existing: map<Path, Module>)
      requires PrefixClosed(fs) && Unrelated(projectRoot, portal)
      modifies this
      ensures r.Failure? ==> fs == old(fs) && log == old(log)
      ensures r.Failure? ==> Explains(old(fs), projectRoot, portal, r.error)
      ensures ModulesDir(projectRoot) !in old(fs).paths ==> r == Failure(NoModulesDirectory(ModulesDir(projectRoot)))
      ensures r.Failure? <==> CannotAdd(old(fs), projectRoot, portal)
      ensures r.Success? ==> AddedAll(old(fs), projectRoot, portal, ignoredDirs, co, r.value, existing)
      ensures r.Success? ==> log == old(log) + StepsOf(old(fs), projectRoot, r.value, co)
      ensures PrefixClosed(fs) && ChangesOnlyBelow(old(fs), fs, ModulesDir(projectRoot))
      ensures SameSubtree(old(fs), fs, portal)
    {
      var found := GetExistingProjects(projectRoot);
      existing := map[];
      if found.Failure? {
        return Failure(found.error), existing;
      }
      existing := found.value;
      if portal == [] {
        return Failure(RootPortal), existing;
      }
      if portal !in fs.paths {
        return Failure(MissingPortal(portal)), existing;
      }
      ghost var fs0 := fs;
      var roots := Discover(fs, portal, IgnoredBy(ignoredDirs));
      forall k | 0 <= k < |roots| ensures portal <= roots[k] {
        assert IsModuleRoot(fs, portal, IgnoredBy(ignoredDirs), roots[k]);
      }
      var handled := VisitAll(projectRoot, portal, roots, existing, co);
      ChangesOnlyBelowKeepsSubtree(fs0, fs, ModulesDir(projectRoot), projectRoot, portal);
      AddedAllIntro(fs0, projectRoot, portal, ignoredDirs, co, roots, handled, existing);
      r := Success(handled);
    }

    /**
     * One portal of `main`: `addModule` when the project directory
     * `projectDir/<portal name>` exists, a full scan otherwise.
     */
    method DispatchPortal(projectDir: Path, portal: Path, ignoredDirs: string, co: Collaborators)
      returns (r: Result<Dispatch, BuildError>)
      requires PrefixClosed(fs) && |portal| > 0 && Unrelated(PortalProjectPath(projectDir, portal), portal)
      modifies this
      ensures r.Success? ==> PortalOutcome(old(fs), fs, old(log), log, projectDir, portal, ignoredDirs, co, r.value)
      ensures r.Failure? <==>
        PortalProjectPath(projectDir, portal) in old(fs).paths && CannotAdd(old(fs), PortalProjectPath(projectDir, portal), portal)
      ensures r.Failure? ==> DispatchFails(old(fs), projectDir, portal, r.error) && fs == old(fs) && log == old(log)
      ensures r.Failure? ==> r.error != RootPortal
      ensures forall e :: e in old(log) ==> e in log
      ensures PrefixClosed(fs)
      ensures forall p :: |p| <= |projectDir| + 1 ==> (p in fs.paths <==> p in old(fs).paths)
    {
      var projectPath := PortalProjectPath(projectDir, portal);
      if projectPath in fs.paths {
        var added, existing := AddModule(projectPath, portal, ignoredDirs, co);
        if added.Failure? {
          return Failure(added.error);
        }
        assert forall p :: |p| <= |projectDir| + 1 ==> !(ModulesDir(projectPath) < p);
        r := Success(Incremental(added.value, existing));
      } else {
        log := log + [FullScan(projectPath, portal)];
        r := Success(FullScanned);
      }
    }

    /**
     * `main`: the portals in order, each dispatched as above against the
     * filesystem the earlier portals left; the first exception stops the
     * run. `stages[i]` and `logs[i]` are the filesystem and the log before
     * portal `i`, and `done` are the portals dispatched before the run ended.
     */
    method Run(projectDir: Path, portals: seq<Path>, ignoredDirs: string, co: Collaborators)
      returns (r: Result<seq<Dispatch>, BuildError>, ghost stages: seq<FileSystem>, ghost logs: seq<seq<Event>>,
               ghost done: seq<Dispatch>)
      requires PrefixClosed(fs)
      requires forall i :: 0 <= i < |portals| && |portals[i]| > 0 ==>
        Unrelated(PortalProjectPath(projectDir, portals[i]), portals[i])
      modifies this
      ensures |stages| == |logs| == |done| + 1 && |done| <= |portals|
      ensures stages[0] == old(fs) && logs[0] == old(log) && stages[|done|] == fs && logs[|done|] == log
      ensures forall i :: 0 <= i < |done| ==>
        PortalOutcome(stages[i], stages[i + 1], logs[i], logs[i + 1], projectDir, portals[i], ignoredDirs, co, done[i])
      ensures r.Success? ==> r.value == done && |done| == |portals|
      ensures r.Failure? ==> |done| < |portals| && DispatchFails(stages[|done|], projectDir, portals[|done|], r.error)
      ensures r.Success? ==> forall i :: 0 <= i < |portals| ==>
        |portals[i]| > 0 && (r.value[i].Incremental? <==> PortalProjectPath(projectDir, portals[i]) in old(fs).paths)
      ensures r.Success? ==> forall i :: 0 <= i < |portals| && r.value[i].FullScanned? ==>
        FullScan(PortalProjectPath(projectDir, portals[i]), portals[i]) in log
      ensures r == Failure(RootPortal) ==> exists i :: 0 <= i < |portals| && portals[i] == []
      ensures PrefixClosed(fs)
      ensures forall p :: |p| <= |projectDir| + 1 ==> (p in fs.paths <==> p in old(fs).paths)
    {
      ghost var fs0 := fs;
      stages, logs, done := [fs], [log], [];
      var dispatched: seq<Dispatch> := [];
      var i := 0;
      while i < |portals|
        invariant 0 <= i <= |portals| && |dispatched| == i && done == dispatched
        invariant RunSoFar(fs0, old(log), fs, log, stages, logs, done, projectDir, portals, ignoredDirs, co)
      {
        if portals[i] == [] {
          return Failure(RootPortal), stages, logs, done;
        }
        var d := DispatchNext(projectDir, portals, i, ignoredDirs, co, fs0, old(log), stages, logs, done);
        if d.Failure? {
          return Failure(d.error), stages, logs, done;
        }
        dispatched := dispatched + [d.value];
        stages, logs, done := stages + [fs], logs + [log], dispatched;
        i := i + 1;
      }
      r := Success(dispatched);
    }

    /** The next portal of `main`, dispatched against the filesystem the earlier ones left. */
    method DispatchNext(projectDir: Path, portals: seq<Path>, i: nat, ignoredDirs: string, co: Collaborators,
                        ghost fs0: FileSystem, ghost log0: seq<Event>, ghost stages: seq<FileSystem>,
                        ghost logs: seq<seq<Event>>, ghost done: seq<Dispatch>)
      returns (r: Result<Dispatch, BuildError>)
      requires RunSoFar(fs0, log0, fs, log, stages, logs, done, projectDir, portals, ignoredDirs, co)
      requires i == |done| < |portals| && |portals[i]| > 0
      requires Unrelated(PortalProjectPath(projectDir, portals[i]), portals[i])
      modifies this
      ensures r.Failure? ==> fs == old(fs) && log == old(log) && r.error != RootPortal
      ensures r.Failure? ==> DispatchFails(old(fs), projectDir, portals[i], r.error)
      ensures r.Success? ==>
        RunSoFar(fs0, log0, fs, log, stages + [fs], logs + [log], done + [r.value], projectDir, portals, ignoredDirs, co)
    {
      r := DispatchPortal(projectDir, portals[i], ignoredDirs, co);
      if r.Success? {
        OutcomesExtend(stages, logs, done, projectDir, portals, ignoredDirs, co, fs, log, r.value);
        RunSoFarExtend(fs0, log0, old(fs), old(log), stages, logs, done, projectDir, portals, ignoredDirs, co,
                       fs, log, r.value);
      }
    }
  }
}
