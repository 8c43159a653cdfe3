/**
 * The stand-alone project generator: one walk over the portal tree that, for
 * each module root, resolves the older (docroot-aware) layout, writes a Gradle
 * build file, adds an `include` line to the settings text and files the module
 * under its parent directory in the project map.
 */
module ModuleProject {
  import opened Wrappers
  import opened FilePaths
  import opened DiscoveryWalker
  import MC = ModuleContainer

  const DocrootPath: Path := ["docroot", "WEB-INF"]
  const MainJavaPath: Path := ["src", "main", "java"]
  const TestUnitPath: Path := ["src", "test", "java"]
  const TestIntegrationPath: Path := ["src", "testIntegration", "java"]

  /**
   * The module record this generator builds, in the order of its constructor:
   * the six layout paths, the jar list as the Gradle query prints it, the
   * module dependencies and the module's name.
   */
  datatype LegacyModule = LegacyModule(
    modulePath: Path,
    sourcePath: Option<Path>,
    sourceResourcePath: Option<Path>,
    testUnitPath: Option<Path>,
    testUnitResourcePath: Option<Path>,
    testIntegrationPath: Option<Path>,
    testIntegrationResourcePath: Option<Path>,
    jarDependencyList: string,
    moduleDependencies: seq<MC.ModuleDependency>,
    moduleName: string)

  // ---------------------------------------------------------------------
  // An ordered list of existence checks, the shape every legacy resolver has

  /** A check on one path: when it exists, `Take` answers with it and `Veto` answers absent. */
  datatype Step = Take(path: Path) | Veto(path: Path)

  /**
   * The answer of the first step whose path exists, or `fallback` when none
   * does: the independent reading of a chain of `if (Files.exists(..)) return ..`.
   */
  function ApplySteps(fs: FileSystem, steps: seq<Step>, fallback: Option<Path>): (r: Option<Path>)
    ensures (forall j :: 0 <= j < |steps| ==> steps[j].path !in fs.paths) ==> r == fallback
    ensures forall j :: 0 <= j < |steps| && steps[j].path in fs.paths
                        && (forall i :: 0 <= i < j ==> steps[i].path !in fs.paths) ==>
              r == (if steps[j].Take? then Some(steps[j].path) else None)
    decreases |steps|
  {
    if steps == [] then fallback
    else if steps[0].path in fs.paths then (if steps[0].Take? then Some(steps[0].path) else None)
    else ApplySteps(fs, steps[1..], fallback)
  }

  /** The first step decides when its path exists; otherwise the rest of the list does. */
  lemma ApplyStepsCons(fs: FileSystem, step: Step, rest: seq<Step>, fallback: Option<Path>)
    ensures ApplySteps(fs, [step] + rest, fallback)
            == if step.path in fs.paths then (if step.Take? then Some(step.path) else None)
               else ApplySteps(fs, rest, fallback)
  {
    assert ([step] + rest)[1..] == rest;
  }

  /** Take, veto, take, veto, take: the shape of the source resolver. */
  lemma FiveSteps(fs: FileSystem, a: Path, b: Path, c: Path, d: Path, e: Path, fallback: Option<Path>)
    ensures ApplySteps(fs, [Take(a), Veto(b), Take(c), Veto(d), Take(e)], fallback)
            == if a in fs.paths then Some(a) else if b in fs.paths then None
               else if c in fs.paths then Some(c) else if d in fs.paths then None
               else if e in fs.paths then Some(e) else fallback
  {
    ApplyStepsCons(fs, Take(e), [], fallback);
    ApplyStepsCons(fs, Veto(d), [Take(e)], fallback);
    ApplyStepsCons(fs, Take(c), [Veto(d), Take(e)], fallback);
    ApplyStepsCons(fs, Veto(b), [Take(c), Veto(d), Take(e)], fallback);
    ApplyStepsCons(fs, Take(a), [Veto(b), Take(c), Veto(d), Take(e)], fallback);
    assert [Take(e)] + [] == [Take(e)];
    assert [Veto(d)] + [Take(e)] == [Veto(d), Take(e)];
    assert [Take(c)] + [Veto(d), Take(e)] == [Take(c), Veto(d), Take(e)];
    assert [Veto(b)] + [Take(c), Veto(d), Take(e)] == [Veto(b), Take(c), Veto(d), Take(e)];
    assert [Take(a)] + [Veto(b), Take(c), Veto(d), Take(e)] == [Take(a), Veto(b), Take(c), Veto(d), Take(e)];
  }

  // ---------------------------------------------------------------------
  // Layout resolution

  /** `_resolveSourcePath`, in the form of the code: two veto checks, no absent answer at the end. */
  function LegacyResolveSourcePath(fs: FileSystem, m: Path): (r: Option<Path>)
    ensures m + MainJavaPath in fs.paths ==> r == Some(m + MainJavaPath)
    ensures r.None? ==> m + ["src", "main"] in fs.paths || m + DocrootPath + ["src", "main"] in fs.paths
    ensures r.Some? ==> r.value in fs.paths || r.value == m + ["src"]
  {
    var mainJava := m + MainJavaPath;
    var docroot := m + DocrootPath;
    if mainJava in fs.paths then Some(mainJava)
    else if m + ["src", "main"] in fs.paths then None
    else if docroot + MainJavaPath in fs.paths then Some(docroot + MainJavaPath)
    else if docroot + ["src", "main"] in fs.paths then None
    else if docroot + ["src"] in fs.paths then Some(docroot + ["src"])
    else Some(m + ["src"])
  }

  /** The six-step order of the source resolver, as a list of checks. */
  function SourceSteps(m: Path): seq<Step> {
    [ Take(m + MainJavaPath),
      Veto(m + ["src", "main"]),
      Take(m + DocrootPath + MainJavaPath),
      Veto(m + DocrootPath + ["src", "main"]),
      Take(m + DocrootPath + ["src"]) ]
  }

  lemma LegacyResolveSourcePathFollowsSteps(fs: FileSystem, m: Path)
    ensures LegacyResolveSourcePath(fs, m) == ApplySteps(fs, SourceSteps(m), Some(m + ["src"]))
  {
    FiveSteps(fs, m + MainJavaPath, m + ["src", "main"], m + DocrootPath + MainJavaPath,
              m + DocrootPath + ["src", "main"], m + DocrootPath + ["src"], Some(m + ["src"]));
  }

  /** `_resolveResourcePath`: `src/<t>/resources`, then the same below `docroot/WEB-INF`. */
  function LegacyResolveResourcePath(fs: FileSystem, m: Path, resourceType: string): (r: Option<Path>)
    ensures r.None? <==>
      m + ["src", resourceType, "resources"] !in fs.paths
      && m + DocrootPath + ["src", resourceType, "resources"] !in fs.paths
    ensures m + ["src", resourceType, "resources"] in fs.paths ==> r == Some(m + ["src", resourceType, "resources"])
    ensures r.Some? ==> r.value in fs.paths
    ensures r.Some? ==> (r.value == m + ["src", resourceType, "resources"]
                         || r.value == m + DocrootPath + ["src", resourceType, "resources"])
  {
    var resourcePath := m + ["src", resourceType, "resources"];
    if resourcePath in fs.paths then Some(resourcePath)
    else
      var docrootResourcePath := m + DocrootPath + ["src", resourceType, "resources"];
      if docrootResourcePath in fs.paths then Some(docrootResourcePath) else None
  }

  /** `_resolveTestPath`, in the form of the code: two of the checks also test `type`. */
  function LegacyResolveTestPath(fs: FileSystem, m: Path, testType: string): (r: Option<Path>)
    ensures r.Some? ==> r.value in fs.paths
  {
    if m + TestUnitPath in fs.paths && testType == "unit" then Some(m + TestUnitPath)
    else if m + DocrootPath + TestUnitPath in fs.paths then Some(m + DocrootPath + TestUnitPath)
    else if m + TestIntegrationPath in fs.paths && testType == "integration" then Some(m + TestIntegrationPath)
    else if m + DocrootPath + TestIntegrationPath in fs.paths then Some(m + DocrootPath + TestIntegrationPath)
    else if m + ["test", testType] in fs.paths then Some(m + ["test", testType])
    else if m + DocrootPath + ["test", testType] in fs.paths then Some(m + DocrootPath + ["test", testType])
    else None
  }

  /** The candidates the test resolver tries for `testType`, in order. */
  function LegacyTestCandidates(m: Path, testType: string): seq<Path> {
    (if testType == "unit" then [m + TestUnitPath] else [])
    + [m + DocrootPath + TestUnitPath]
    + (if testType == "integration" then [m + TestIntegrationPath] else [])
    + [m + DocrootPath + TestIntegrationPath, m + ["test", testType], m + DocrootPath + ["test", testType]]
  }

  /** The first existing of four candidates, spelled out. */
  lemma FirstOfFour(fs: FileSystem, a: Path, b: Path, c: Path, d: Path)
    ensures FirstExisting(fs, [a, b, c, d])
            == if a in fs.paths then Some(a) else if b in fs.paths then Some(b)
               else if c in fs.paths then Some(c) else if d in fs.paths then Some(d) else None
  {
    FirstExistingCons(fs, d, []);
    FirstExistingCons(fs, c, [d]);
    FirstExistingCons(fs, b, [c, d]);
    FirstExistingCons(fs, a, [b, c, d]);
    assert [d] + [] == [d] && [c] + [d] == [c, d] && [b] + [c, d] == [b, c, d] && [a] + [b, c, d] == [a, b, c, d];
  }

  /** The first existing of five candidates, spelled out. */
  lemma FirstOfFive(fs: FileSystem, a: Path, b: Path, c: Path, d: Path, e: Path)
    ensures FirstExisting(fs, [a, b, c, d, e])
            == if a in fs.paths then Some(a) else FirstExisting(fs, [b, c, d, e])
  {
    FirstExistingCons(fs, a, [b, c, d, e]);
    assert [a] + [b, c, d, e] == [a, b, c, d, e];
  }

  lemma LegacyResolveTestPathIsFirstExisting(fs: FileSystem, m: Path, testType: string)
    ensures LegacyResolveTestPath(fs, m, testType) == FirstExisting(fs, LegacyTestCandidates(m, testType))
  {
    var p1, p2, p3 := m + TestUnitPath, m + DocrootPath + TestUnitPath, m + TestIntegrationPath;
    var p4, p5, p6 := m + DocrootPath + TestIntegrationPath, m + ["test", testType], m + DocrootPath + ["test", testType];
    var c := LegacyTestCandidates(m, testType);
    if testType == "unit" {
      assert c == [p1, p2, p4, p5, p6];
      FirstOfFive(fs, p1, p2, p4, p5, p6);
      FirstOfFour(fs, p2, p4, p5, p6);
    } else if testType == "integration" {
      assert c == [p2, p3, p4, p5, p6];
      FirstOfFive(fs, p2, p3, p4, p5, p6);
      FirstOfFour(fs, p3, p4, p5, p6);
    } else {
      assert c == [p2, p4, p5, p6];
      FirstOfFour(fs, p2, p4, p5, p6);
    }
  }

  /**
   * As written, the docroot `src/test/java` directory is returned for every
   * test type, so an integration-test lookup can answer with the unit tests.
   */
  lemma DocrootUnitTestsForAnyType(fs: FileSystem, m: Path, testType: string)
    requires m + DocrootPath + TestUnitPath in fs.paths
    requires testType != "unit" || m + TestUnitPath !in fs.paths
    ensures LegacyResolveTestPath(fs, m, testType) == Some(m + DocrootPath + TestUnitPath)
  {
  }

  // ---------------------------------------------------------------------
  // Module creation

  /** Where a module root leads: the module directory and its file name. */
  datatype ModuleDir = ModuleDir(path: Path, name: string)

  /**
   * `_createModule`'s renormalisation: a directory named `WEB-INF` stands for
   * its grand-parent. When that grand-parent is missing or is the filesystem
   * root, which has no file name, the code throws a null-pointer exception;
   * the result is then absent.
   */
  function Locate(dir: Path): (r: Option<ModuleDir>)
    requires |dir| > 0
    ensures r.Some? ==> FileName(r.value.path) == Some(r.value.name)
    ensures !EndsWith(dir, "WEB-INF") ==> r == Some(ModuleDir(dir, dir[|dir| - 1]))
    ensures EndsWith(dir, "WEB-INF") ==> (r.Some? <==> |dir| >= 3)
    ensures EndsWith(dir, "WEB-INF") && r.Some? ==>
      Parent(dir).Some? && Parent(Parent(dir).value) == Some(r.value.path)
  {
    if EndsWith(dir, "WEB-INF") then
      if |dir| >= 3 then
        var path := dir[..|dir| - 2];
        assert dir[..|dir| - 1][..|dir| - 2] == path;
        assert path[|path| - 1] == dir[|dir| - 3];
        Some(ModuleDir(path, dir[|dir| - 3]))
      else None
    else Some(ModuleDir(dir, dir[|dir| - 1]))
  }

  /** The settings line one created module contributes. */
  function IncludeLine(name: string): string {
    "include \"" + name + "\"\n"
  }

  /**
   * The module `_createModule` returns for the module root `dir`, absent when
   * it throws. `jars` stands for `GradleUtil.getJarDependencies` and `deps`
   * for `GradleUtil.getModuleDependencies`.
   */
  function MakeModule(fs: FileSystem, dir: Path, jars: Path -> string,
                      deps: Path -> seq<MC.ModuleDependency>): (r: Option<LegacyModule>)
    requires |dir| > 0
    ensures r.None? <==> Locate(dir).None?
    ensures r.Some? ==> FileName(r.value.modulePath) == Some(r.value.moduleName)
    ensures r.Some? ==> r.value.modulePath <= dir
    ensures r.Some? ==> r.value.sourcePath.Some? || SourceVetoed(fs, r.value.modulePath)
    ensures r.Some? ==> Locate(dir) == Some(ModuleDir(r.value.modulePath, r.value.moduleName))
    ensures r.Some? ==>
      var m := r.value.modulePath;
      && r.value.sourcePath == LegacyResolveSourcePath(fs, m)
      && r.value.sourceResourcePath == LegacyResolveResourcePath(fs, m, "main")
      && r.value.testUnitPath == LegacyResolveTestPath(fs, m, "unit")
      && r.value.testUnitResourcePath == LegacyResolveResourcePath(fs, m, "test")
      && r.value.testIntegrationPath == LegacyResolveTestPath(fs, m, "integration")
      && r.value.testIntegrationResourcePath == LegacyResolveResourcePath(fs, m, "integration")
      && r.value.jarDependencyList == jars(m)
      && r.value.moduleDependencies == deps(m)
  {
    match Locate(dir)
    case None => None
    case Some(ModuleDir(path, name)) =>
      Some(LegacyModule(
        path,
        LegacyResolveSourcePath(fs, path),
        LegacyResolveResourcePath(fs, path, "main"),
        LegacyResolveTestPath(fs, path, "unit"),
        LegacyResolveResourcePath(fs, path, "test"),
        LegacyResolveTestPath(fs, path, "integration"),
        LegacyResolveResourcePath(fs, path, "integration"),
        jars(path),
        deps(path),
        name))
  }

  /** One of the directories whose existence makes the source resolver answer absent. */
  predicate SourceVetoed(fs: FileSystem, m: Path) {
    m + ["src", "main"] in fs.paths || m + DocrootPath + ["src", "main"] in fs.paths
  }

  // ---------------------------------------------------------------------
  // The project map

  type ProjectMap = map<Option<Path>, map<string, LegacyModule>>

  /**
   * `_linkModuletoMap`'s bucket: the parent directory, or the parent's
   * grand-parent when the parent is a `docroot`; a `docroot` directly below
   * the filesystem root gives a null key.
   */
  function BucketKey(parent: Path): (r: Option<Path>)
    ensures !EndsWith(parent, "docroot") ==> r == Some(parent)
    ensures EndsWith(parent, "docroot") ==> (r.None? <==> |parent| == 1)
    ensures EndsWith(parent, "docroot") && r.Some? ==>
      Parent(parent).Some? && Parent(Parent(parent).value) == r
  {
    if EndsWith(parent, "docroot") then
      if |parent| >= 2 then
        assert parent[..|parent| - 1][..|parent| - 2] == parent[..|parent| - 2];
        Some(parent[..|parent| - 2])
      else None
    else Some(parent)
  }

  /**
   * `_linkModuletoMap` on a map value: the module goes into its bucket under
   * its name, replacing an earlier module of that name; every other bucket and
   * every other entry of the bucket is kept.
   */
  function Link(pm: ProjectMap, entry: LegacyModule, parent: Path): (r: ProjectMap)
    ensures r.Keys == pm.Keys + {BucketKey(parent)}
    ensures forall k :: k in pm && k != BucketKey(parent) ==> r[k] == pm[k]
    ensures entry.moduleName in r[BucketKey(parent)] && r[BucketKey(parent)][entry.moduleName] == entry
    ensures forall n :: n in r[BucketKey(parent)] && n != entry.moduleName ==>
      BucketKey(parent) in pm && n in pm[BucketKey(parent)] && r[BucketKey(parent)][n] == pm[BucketKey(parent)][n]
    ensures BucketKey(parent) in pm ==> pm[BucketKey(parent)].Keys <= r[BucketKey(parent)].Keys
  {
    var key := BucketKey(parent);
    var bucket := if key in pm then pm[key] else map[];
    pm[key := bucket[entry.moduleName := entry]]
  }

  /** The parent directory of a module root, as the visitor passes it. */
  function ParentOf(dir: Path): Path
    requires |dir| > 0
  {
    dir[..|dir| - 1]
  }

  predicate NonRoot(roots: seq<Path>) {
    forall i :: 0 <= i < |roots| ==> |roots[i]| > 0
  }

  /**
   * `_createModule` as a function of the visited directory, for the folds
   * over the walk's roots (the filesystem root, which the walk never visits,
   * creates nothing).
   */
  function Maker(fs: FileSystem, jars: Path -> string, deps: Path -> seq<MC.ModuleDependency>): Path -> Option<LegacyModule> {
    dir => if |dir| > 0 then MakeModule(fs, dir, jars, deps) else None
  }

  /** The modules created for `roots`, in order; a root whose creation throws adds none. */
  function Created(make: Path -> Option<LegacyModule>, roots: seq<Path>): (r: seq<LegacyModule>)
    requires NonRoot(roots)
    ensures |r| <= |roots|
    decreases |roots|
  {
    if roots == [] then []
    else
      var previous := Created(make, roots[..|roots| - 1]);
      match make(roots[|roots| - 1])
      case Some(m) => previous + [m]
      case None => previous
  }

  /** Every created module is the one created for some root. */
  lemma {:induction false} CreatedSound(make: Path -> Option<LegacyModule>, roots: seq<Path>, m: LegacyModule)
    requires NonRoot(roots) && m in Created(make, roots)
    ensures exists i :: 0 <= i < |roots| && make(roots[i]) == Some(m)
    decreases |roots|
  {
    var init := roots[..|roots| - 1];
    var last := roots[|roots| - 1];
    var made := make(last);
    if made == Some(m) {
      assert make(roots[|roots| - 1]) == Some(m);
    } else {
      assert m in Created(make, init);
      CreatedSound(make, init, m);
      var i :| 0 <= i < |init| && make(init[i]) == Some(m);
      assert init[i] == roots[i];
    }
  }

  /** The module created for each root whose creation does not throw is among the created ones. */
  lemma {:induction false} CreatedComplete(make: Path -> Option<LegacyModule>, roots: seq<Path>, i: nat)
    requires NonRoot(roots) && i < |roots| && make(roots[i]).Some?
    ensures make(roots[i]).value in Created(make, roots)
    decreases |roots|
  {
    var init := roots[..|roots| - 1];
    if i < |init| {
      assert init[i] == roots[i];
      CreatedComplete(make, init, i);
    }
  }

  /** The settings text the created modules add: one `include` line each, in order. */
  function SettingsText(modules: seq<LegacyModule>): string
    decreases |modules|
  {
    if modules == [] then ""
    else SettingsText(modules[..|modules| - 1]) + IncludeLine(modules[|modules| - 1].moduleName)
  }

  /** The number of line breaks in `s`. */
  function CountNewlines(s: string): nat
    decreases |s|
  {
    if s == [] then 0
    else CountNewlines(s[..|s| - 1]) + (if s[|s| - 1] == '\n' then 1 else 0)
  }

  /** A name holds no line break. */
  predicate SingleLine(name: string) {
    '\n' !in name
  }

  lemma {:induction false} CountNewlinesAppend(a: string, b: string)
    ensures CountNewlines(a + b) == CountNewlines(a) + CountNewlines(b)
    decreases |b|
  {
    if b == [] {
      assert a + b == a;
    } else {
      var init := b[..|b| - 1];
      assert (a + b)[..|a + b| - 1] == a + init;
      CountNewlinesAppend(a, init);
    }
  }

  lemma {:induction false} CountNewlinesSingleLine(name: string)
    requires SingleLine(name)
    ensures CountNewlines(name) == 0
    decreases |name|
  {
    if name != [] {
      CountNewlinesSingleLine(name[..|name| - 1]);
    }
  }

  lemma IncludeLineCount(name: string)
    requires SingleLine(name)
    ensures CountNewlines(IncludeLine(name)) == 1
  {
    CountNewlinesSingleLine(name);
    CountNewlinesAppend("include \"", name);
    CountNewlinesAppend("include \"" + name, "\"\n");
    assert CountNewlines("include \"") == 0 by {
      CountNewlinesSingleLine("include \"");
    }
    assert CountNewlines("\"\n") == 1 by {
      assert "\"\n"[..1] == "\"";
      CountNewlinesSingleLine("\"");
    }
  }

  /** The settings text has exactly one line per created module. */
  lemma {:induction false} SettingsOneLinePerModule(modules: seq<LegacyModule>)
    requires forall i :: 0 <= i < |modules| ==> SingleLine(modules[i].moduleName)
    ensures CountNewlines(SettingsText(modules)) == |modules|
    decreases |modules|
  {
    if modules != [] {
      var init := modules[..|modules| - 1];
      SettingsOneLinePerModule(init);
      CountNewlinesAppend(SettingsText(init), IncludeLine(modules[|modules| - 1].moduleName));
      IncludeLineCount(modules[|modules| - 1].moduleName);
    }
  }

  /** The project map after linking the modules created for `roots`, in order. */
  function LinkEach(pm: ProjectMap, make: Path -> Option<LegacyModule>, roots: seq<Path>): (r: ProjectMap)
    requires NonRoot(roots)
    ensures pm.Keys <= r.Keys
    decreases |roots|
  {
    if roots == [] then pm
    else
      var previous := LinkEach(pm, make, roots[..|roots| - 1]);
      var dir := roots[|roots| - 1];
      match make(dir)
      case Some(m) => Link(previous, m, ParentOf(dir))
      case None => previous
  }

  /**
   * Linking one more root keeps every entry, and an entry after linking is
   * either the one it had before or the module created for that root.
   */
  lemma LinkEachStep(pm: ProjectMap, make: Path -> Option<LegacyModule>, roots: seq<Path>, key: Option<Path>, name: string)
    requires NonRoot(roots) && roots != []
    ensures var last := roots[|roots| - 1];
      var previous := LinkEach(pm, make, roots[..|roots| - 1]);
      var r := LinkEach(pm, make, roots);
      var made := make(last);
      && (key in previous && name in previous[key] ==> key in r && name in r[key])
      && (key in r && name in r[key] ==>
            (key in previous && name in previous[key] && r[key][name] == previous[key][name])
            || made == Some(r[key][name]))
      && (made.Some? && key == BucketKey(ParentOf(last)) && name == made.value.moduleName ==>
            key in r && name in r[key] && r[key][name] == made.value)
  {
  }

  /**
   * Every created module has an entry under its name in its bucket, holding it
   * or a module created later under the same bucket and name.
   */
  lemma {:induction false} LinkEachFiles(pm: ProjectMap, make: Path -> Option<LegacyModule>, roots: seq<Path>, i: nat)
    requires NonRoot(roots) && i < |roots| && make(roots[i]).Some?
    ensures var m := make(roots[i]).value;
      var key := BucketKey(ParentOf(roots[i]));
      var r := LinkEach(pm, make, roots);
      && key in r && m.moduleName in r[key]
      && exists j :: i <= j < |roots| && make(roots[j]) == Some(r[key][m.moduleName])
    decreases |roots|, 1
  {
    var m := make(roots[i]).value;
    var key := BucketKey(ParentOf(roots[i]));
    var last := |roots| - 1;
    if i == last {
      LinkEachStep(pm, make, roots, key, m.moduleName);
      assert make(roots[last]) == Some(LinkEach(pm, make, roots)[key][m.moduleName]);
    } else {
      LinkEachFilesBefore(pm, make, roots, i);
    }
  }

  /** The case of `LinkEachFiles` for a root before the last one. */
  lemma {:induction false} LinkEachFilesBefore(pm: ProjectMap, make: Path -> Option<LegacyModule>, roots: seq<Path>, i: nat)
    requires NonRoot(roots) && i < |roots| - 1 && make(roots[i]).Some?
    ensures var m := make(roots[i]).value;
      var key := BucketKey(ParentOf(roots[i]));
      var r := LinkEach(pm, make, roots);
      && key in r && m.moduleName in r[key]
      && exists j :: i <= j < |roots| && make(roots[j]) == Some(r[key][m.moduleName])
    decreases |roots|, 0
  {
    var name := make(roots[i]).value.moduleName;
    var key := BucketKey(ParentOf(roots[i]));
    var init := roots[..|roots| - 1];
    var last := |roots| - 1;
    var r := LinkEach(pm, make, roots);
    assert init[i] == roots[i];
    LinkEachFiles(pm, make, init, i);
    LinkEachStep(pm, make, roots, key, name);
    var previous := LinkEach(pm, make, init);
    if make(roots[last]) != Some(r[key][name]) {
      var j :| i <= j < |init| && make(init[j]) == Some(previous[key][name]);
      assert init[j] == roots[j];
    }
  }

  /** Each entry of the map after linking is one it had before or a module created for one of `roots`. */
  lemma {:induction false} LinkEachProvenance(pm: ProjectMap, make: Path -> Option<LegacyModule>, roots: seq<Path>, key: Option<Path>, name: string)
    requires NonRoot(roots)
    requires var r := LinkEach(pm, make, roots); key in r && name in r[key]
    ensures var r := LinkEach(pm, make, roots);
      || (key in pm && name in pm[key] && r[key][name] == pm[key][name])
      || exists j :: 0 <= j < |roots| && make(roots[j]) == Some(r[key][name])
    decreases |roots|
  {
    if roots != [] {
      var init := roots[..|roots| - 1];
      var r := LinkEach(pm, make, roots);
      LinkEachStep(pm, make, roots, key, name);
      if make(roots[|roots| - 1]) != Some(r[key][name]) {
        LinkEachProvenance(pm, make, init, key, name);
        forall j | 0 <= j < |init| ensures init[j] == roots[j] { }
      }
    }
  }

  // ---------------------------------------------------------------------
  // The walk

  /** What the generator does that the model leaves as a recorded step. */
  datatype Event =
    | Cleaned(projectDir: Path)                                // `_clean`: the project directory is emptied
    | BuildGradleWritten(moduleName: string, jarDependencyList: string)  // `_createBuildGradleFile`
    | CreationFailed(dir: Path)                                // `_createModule` threw; the error is logged

  /** The steps recorded for `roots`, in order. */
  function EventsOf(make: Path -> Option<LegacyModule>, roots: seq<Path>): (r: seq<Event>)
    requires NonRoot(roots)
    ensures |r| == |roots|
    decreases |roots|
  {
    if roots == [] then []
    else
      var dir := roots[|roots| - 1];
      EventsOf(make, roots[..|roots| - 1])
      + match make(dir)
        case Some(m) => [BuildGradleWritten(m.moduleName, m.jarDependencyList)]
        case None => [CreationFailed(dir)]
  }

  /** One step per root, in order: the build file written, or the failure logged. */
  lemma {:induction false} EventsOfEach(make: Path -> Option<LegacyModule>, roots: seq<Path>)
    requires NonRoot(roots)
    ensures var r := EventsOf(make, roots);
      forall i :: 0 <= i < |roots| ==>
        r[i] == match make(roots[i])
                case Some(m) => BuildGradleWritten(m.moduleName, m.jarDependencyList)
                case None => CreationFailed(roots[i])
    decreases |roots|
  {
    if roots != [] {
      var init := roots[..|roots| - 1];
      EventsOfEach(make, init);
      forall i | 0 <= i < |init| ensures init[i] == roots[i] { }
    }
  }

  /** Handling one more root extends each of the folds by that root's contribution. */
  lemma PrefixStep(pm: ProjectMap, make: Path -> Option<LegacyModule>, roots: seq<Path>, i: nat)
    requires NonRoot(roots) && i < |roots|
    ensures var made := make(roots[i]);
      && Created(make, roots[..i + 1])
         == Created(make, roots[..i]) + (if made.Some? then [made.value] else [])
      && LinkEach(pm, make, roots[..i + 1])
         == (if made.Some? then Link(LinkEach(pm, make, roots[..i]), made.value, ParentOf(roots[i]))
             else LinkEach(pm, make, roots[..i]))
      && SettingsText(Created(make, roots[..i + 1]))
         == SettingsText(Created(make, roots[..i])) + (if made.Some? then IncludeLine(made.value.moduleName) else "")
      && EventsOf(make, roots[..i + 1])
         == EventsOf(make, roots[..i])
            + (if made.Some? then [BuildGradleWritten(made.value.moduleName, made.value.jarDependencyList)]
               else [CreationFailed(roots[i])])
  {
    assert roots[..i + 1][..i] == roots[..i];
    var made := make(roots[i]);
    var before := Created(make, roots[..i]);
    if made.Some? {
      assert (before + [made.value])[..|before|] == before;
    }
  }

  /** The name test of the visitor: membership of `blackListDirs`. */
  function InBlackList(blackList: set<string>): string -> bool {
    name => name in blackList
  }

  /** The state the visitor of `main` updates: the project map, the settings text and the recorded steps. */
  class LegacyScan {
    var projectMap: ProjectMap
    var settings: string
    ghost var log: seq<Event>

    constructor ()
      ensures projectMap == map[] && settings == "" && log == []
    {
      projectMap := map[];
      settings := "";
      log := [];
    }

    /**
     * `_createModule`: renormalises the directory, writes the build file,
     * appends the module's `include` line and returns the module; when the
     * renormalised directory has no name it throws before any of that.
     */
    method CreateModule(fs: FileSystem, dir: Path, jars: Path -> string,
                        deps: Path -> seq<MC.ModuleDependency>) returns (r: Option<LegacyModule>)
      requires |dir| > 0
      modifies this
      ensures r == MakeModule(fs, dir, jars, deps)
      ensures settings == old(settings) + (if r.Some? then IncludeLine(r.value.moduleName) else "")
      ensures log == old(log) + (if r.Some? then [BuildGradleWritten(r.value.moduleName, r.value.jarDependencyList)] else [])
      ensures projectMap == old(projectMap)
    {
      var located := Locate(dir);
      if located.None? {
        return None;
      }
      var path, name := located.value.path, located.value.name;
      var jarDependencyList := jars(path);
      log := log + [BuildGradleWritten(name, jarDependencyList)];
      ghost var settings0 := settings;
      settings := settings + "include \"";
      settings := settings + name;
      AppendAssociates(settings0, "include \"", name);
      settings := settings + "\"\n";
      AppendAssociates(settings0, "include \"" + name, "\"\n");
      r := MakeModule(fs, dir, jars, deps);
    }

    /** `_linkModuletoMap`: files the module in the project map. */
    method LinkModule(entry: LegacyModule, parent: Path)
      modifies this
      ensures projectMap == Link(old(projectMap), entry, parent)
      ensures settings == old(settings) && log == old(log)
    {
      var key := BucketKey(parent);
      var moduleMap: map<string, LegacyModule> := if key in projectMap then projectMap[key] else map[];
      moduleMap := moduleMap[entry.moduleName := entry];
      projectMap := projectMap[key := moduleMap];
    }

    /** The visitor's work for the module root `roots[i]`, extending each fold by one root. */
    method VisitRoot(fs: FileSystem, roots: seq<Path>, i: nat, jars: Path -> string,
                     deps: Path -> seq<MC.ModuleDependency>,
                     ghost settings0: string, ghost map0: ProjectMap, ghost log0: seq<Event>)
      requires NonRoot(roots) && i < |roots|
      requires settings == settings0 + SettingsText(Created(Maker(fs, jars, deps), roots[..i]))
      requires projectMap == LinkEach(map0, Maker(fs, jars, deps), roots[..i])
      requires log == log0 + EventsOf(Maker(fs, jars, deps), roots[..i])
      modifies this
      ensures settings == settings0 + SettingsText(Created(Maker(fs, jars, deps), roots[..i + 1]))
      ensures projectMap == LinkEach(map0, Maker(fs, jars, deps), roots[..i + 1])
      ensures log == log0 + EventsOf(Maker(fs, jars, deps), roots[..i + 1])
    {
      var dir := roots[i];
      PrefixStep(map0, Maker(fs, jars, deps), roots, i);
      ghost var text := SettingsText(Created(Maker(fs, jars, deps), roots[..i]));
      ghost var events := EventsOf(Maker(fs, jars, deps), roots[..i]);
      var created := CreateModule(fs, dir, jars, deps);
      ghost var line := if created.Some? then IncludeLine(created.value.moduleName) else "";
      AppendAssociates(settings0, text, line);
      if created.Some? {
        LinkModule(created.value, ParentOf(dir));
        AppendAssociates(log0, events, [BuildGradleWritten(created.value.moduleName, created.value.jarDependencyList)]);
      } else {
        log := log + [CreationFailed(dir)];
        AppendAssociates(log0, events, [CreationFailed(dir)]);
      }
    }

    /** The visitor's work for each module root, in the order of the walk. */
    method CreateEach(fs: FileSystem, roots: seq<Path>, jars: Path -> string,
                      deps: Path -> seq<MC.ModuleDependency>)
      requires NonRoot(roots)
      modifies this
      ensures settings == old(settings) + SettingsText(Created(Maker(fs, jars, deps), roots))
      ensures projectMap == LinkEach(old(projectMap), Maker(fs, jars, deps), roots)
      ensures log == old(log) + EventsOf(Maker(fs, jars, deps), roots)
    {
      var i := 0;
      while i < |roots|
        invariant 0 <= i <= |roots|
        invariant settings == old(settings) + SettingsText(Created(Maker(fs, jars, deps), roots[..i]))
        invariant projectMap == LinkEach(old(projectMap), Maker(fs, jars, deps), roots[..i])
        invariant log == old(log) + EventsOf(Maker(fs, jars, deps), roots[..i])
      {
        VisitRoot(fs, roots, i, jars, deps, old(settings), old(projectMap), old(log));
        i := i + 1;
      }
      assert roots[..|roots|] == roots;
    }

    /**
     * `main`: empties the project directory, walks the portal tree with the
     * black list and, for each module root in the order of the walk, creates
     * the module and links it under the root's parent; a root whose creation
     * throws is logged and skipped. Returns the module roots in that order.
     * Cleaning and the build files change only the project directory, which
     * lies outside the portal tree, so the walk sees `fs` throughout.
     */
    method Scan(fs: FileSystem, portal: Path, blackList: set<string>, projectDir: Path,
                jars: Path -> string, deps: Path -> seq<MC.ModuleDependency>) returns (roots: seq<Path>)
      requires |portal| > 0 && portal in fs.paths
      requires Unrelated(projectDir, portal)
      modifies this
      ensures forall d :: d in roots <==> IsModuleRoot(fs, portal, InBlackList(blackList), d)
      ensures forall i, j :: 0 <= i < j < |roots| ==> roots[i] != roots[j]
      ensures NonRoot(roots)
      ensures settings == old(settings) + SettingsText(Created(Maker(fs, jars, deps), roots))
      ensures projectMap == LinkEach(old(projectMap), Maker(fs, jars, deps), roots)
      ensures log == old(log) + [Cleaned(projectDir)] + EventsOf(Maker(fs, jars, deps), roots)
    {
      log := log + [Cleaned(projectDir)];
      roots := Discover(fs, portal, InBlackList(blackList));
      assert NonRoot(roots) by {
        forall i | 0 <= i < |roots| ensures |roots[i]| > 0 {
          assert IsModuleRoot(fs, portal, InBlackList(blackList), roots[i]);
        }
      }
      CreateEach(fs, roots, jars, deps);
    }
  }
}
