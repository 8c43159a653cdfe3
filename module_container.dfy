/**
 * The module record of the incremental builder: how a module root's layout is
 * resolved, how its build file is fingerprinted, what module equality compares,
 * and how the record is saved to and loaded from `module-info.properties`.
 */
module ModuleContainer {
  import opened Wrappers
  import opened FilePaths

  /** An archive file; the boolean is the second argument of the source's `JarDependency` constructor. */
  datatype JarDependency = JarDependency(path: Path, flag: bool)

  /** A reference to another in-tree module, by name. */
  datatype ModuleDependency = ModuleDependency(name: string)

  /**
   * The module record. `None` stands for a null field: the project path of a
   * preview module, a layout directory that was not found, the dependency lists
   * of a loaded record, a checksum when there is no build file.
   */
  datatype Module = Module(
    projectPath: Option<Path>,
    modulePath: Path,
    sourcePath: Option<Path>,
    sourceResourcePath: Option<Path>,
    testUnitPath: Option<Path>,
    testUnitResourcePath: Option<Path>,
    testIntegrationPath: Option<Path>,
    testIntegrationResourcePath: Option<Path>,
    moduleDependencies: Option<seq<ModuleDependency>>,
    jarDependencies: Option<seq<JarDependency>>,
    checksum: Option<string>)

  /** The fields that module equality compares: the module path, the six layout paths and the checksum. */
  datatype Identity = Identity(
    modulePath: Path,
    sourcePath: Option<Path>,
    sourceResourcePath: Option<Path>,
    testUnitPath: Option<Path>,
    testUnitResourcePath: Option<Path>,
    testIntegrationPath: Option<Path>,
    testIntegrationResourcePath: Option<Path>,
    checksum: Option<string>)

  function IdentityOf(m: Module): Identity {
    Identity(m.modulePath, m.sourcePath, m.sourceResourcePath, m.testUnitPath,
      m.testUnitResourcePath, m.testIntegrationPath, m.testIntegrationResourcePath, m.checksum)
  }

  const BuildGradle := "build.gradle"
  const ModuleInfo := "module-info.properties"

  // ---------------------------------------------------------------------
  // Layout resolution

  /**
   * `_resolveSourcePath`: the legacy web layout `docroot/WEB-INF/src` wins, then
   * `src/main/java`; otherwise bare `src`, unless `src` holds a `main`, `test`
   * or `testIntegration` directory, in which case there is no source path.
   */
  function ResolveSourcePath(fs: FileSystem, m: Path): (r: Option<Path>)
    ensures r == Some(m + ["docroot", "WEB-INF", "src"]) <==> m + ["docroot", "WEB-INF", "src"] in fs.paths
    ensures r == Some(m + ["src", "main", "java"]) <==>
      m + ["docroot", "WEB-INF", "src"] !in fs.paths && m + ["src", "main", "java"] in fs.paths
    ensures r.None? <==>
      && m + ["docroot", "WEB-INF", "src"] !in fs.paths
      && m + ["src", "main", "java"] !in fs.paths
      && (m + ["src", "main"] in fs.paths || m + ["src", "test"] in fs.paths
          || m + ["src", "testIntegration"] in fs.paths)
    ensures r.Some? ==> r.value in {m + ["docroot", "WEB-INF", "src"], m + ["src", "main", "java"], m + ["src"]}
  {
    var webInfSource := m + ["docroot", "WEB-INF", "src"];
    var mainJava := m + ["src", "main", "java"];
    var source := m + ["src"];
    assert webInfSource != mainJava && webInfSource != source && mainJava != source by {
      assert webInfSource[|m|] != mainJava[|m|] && |mainJava| != |source|;
    }
    if webInfSource in fs.paths then Some(webInfSource)
    else if mainJava in fs.paths then Some(mainJava)
    else if m + ["src", "main"] in fs.paths || m + ["src", "test"] in fs.paths
      || m + ["src", "testIntegration"] in fs.paths then None
    else Some(source)
  }

  /** `_resolveResourcePath(m, type)`: `src/<type>/resources` when it exists. */
  function ResolveResourcePath(fs: FileSystem, m: Path, resourceType: string): (r: Option<Path>)
    ensures r.Some? ==> r.value == m + ["src", resourceType, "resources"] && r.value in fs.paths
    ensures r.None? <==> m + ["src", resourceType, "resources"] !in fs.paths
  {
    var resources := m + ["src", resourceType, "resources"];
    if resources in fs.paths then Some(resources) else None
  }

  /** The candidates `_resolveTestPath` tries, in order. */
  function TestCandidates(m: Path, unit: bool): seq<Path> {
    if unit then [m + ["src", "test", "java"], m + ["test", "unit"]]
    else [m + ["src", "testIntegration", "java"], m + ["test", "integration"]]
  }

  /**
   * `_resolveTestPath(m, unit)`: for unit tests `src/test/java`, then
   * `test/unit`; for integration tests `src/testIntegration/java`, then
   * `test/integration`; absent when neither exists.
   */
  function ResolveTestPath(fs: FileSystem, m: Path, unit: bool): (r: Option<Path>)
    ensures r.Some? ==> r.value in fs.paths && r.value in TestCandidates(m, unit)
    ensures r == Some(TestCandidates(m, unit)[0]) <==> TestCandidates(m, unit)[0] in fs.paths
    ensures r.None? <==> TestCandidates(m, unit)[0] !in fs.paths && TestCandidates(m, unit)[1] !in fs.paths
  {
    var testPath := if unit then m + ["src", "test", "java"] else m + ["src", "testIntegration", "java"];
    if testPath in fs.paths then Some(testPath)
    else
      var fallback := if unit then m + ["test", "unit"] else m + ["test", "integration"];
      if fallback in fs.paths then Some(fallback) else None
  }

  /** The test-path resolver is the ordered first-existing rule over its two candidates. */
  lemma ResolveTestPathIsFirstExisting(fs: FileSystem, m: Path, unit: bool)
    ensures ResolveTestPath(fs, m, unit) == FirstExisting(fs, TestCandidates(m, unit))
  {
    var c := TestCandidates(m, unit);
    assert FirstExistingIndex(fs, c[1..][1..]) == 0;
  }

  // ---------------------------------------------------------------------
  // Fingerprint

  /**
   * The checksum: a digest of the bytes of `build.gradle` when that file
   * exists, absent otherwise. `digest` stands for MD5 followed by hex encoding.
   */
  function Checksum(fs: FileSystem, m: Path, digest: Bytes -> string): (r: Option<string>)
    ensures r.None? <==> m + [BuildGradle] !in fs.paths
    ensures r.Some? ==> r.value == digest(fs.Read(m + [BuildGradle]))
  {
    var gradleFile := m + [BuildGradle];
    if gradleFile in fs.paths then Some(digest(fs.Read(gradleFile))) else None
  }

  /** The compared fields `createModule` computes for the module root `m`. */
  function Describe(fs: FileSystem, m: Path, digest: Bytes -> string): Identity {
    Identity(m, ResolveSourcePath(fs, m),
      ResolveResourcePath(fs, m, "main"),
      ResolveTestPath(fs, m, true),
      ResolveResourcePath(fs, m, "test"),
      ResolveTestPath(fs, m, false),
      ResolveResourcePath(fs, m, "testIntegration"),
      Checksum(fs, m, digest))
  }

  /** What `createModule` computes depends only on the subtree below the module root. */
  lemma DescribeIsLocal(fs1: FileSystem, fs2: FileSystem, m: Path, digest: Bytes -> string)
    requires SameSubtree(fs1, fs2, m)
    ensures Describe(fs1, m, digest) == Describe(fs2, m, digest)
  {
    forall names: seq<string> ensures (m + names in fs1.paths <==> m + names in fs2.paths) {
      assert m <= m + names;
    }
    assert m <= m + [BuildGradle];
  }

  // ---------------------------------------------------------------------
  // Equality and hash code

  /** `equals`: the module path, the six layout paths and the checksum agree. */
  predicate Equal(a: Module, b: Module)
    ensures Equal(a, b) <==>
      && a.modulePath == b.modulePath
      && a.sourcePath == b.sourcePath
      && a.sourceResourcePath == b.sourceResourcePath
      && a.testUnitPath == b.testUnitPath
      && a.testUnitResourcePath == b.testUnitResourcePath
      && a.testIntegrationPath == b.testIntegrationPath
      && a.testIntegrationResourcePath == b.testIntegrationResourcePath
      && a.checksum == b.checksum
  {
    IdentityOf(a) == IdentityOf(b)
  }

  /** Equality ignores the project path and both dependency lists. */
  lemma EqualIgnoresUncompared(m: Module, projectPath: Option<Path>,
                               modules: Option<seq<ModuleDependency>>, jars: Option<seq<JarDependency>>)
    ensures Equal(m, m.(projectPath := projectPath, moduleDependencies := modules, jarDependencies := jars))
  {
  }

  /** Equality is an equivalence relation. */
  lemma EqualIsEquivalence(a: Module, b: Module, c: Module)
    ensures Equal(a, a)
    ensures Equal(a, b) ==> Equal(b, a)
    ensures Equal(a, b) && Equal(b, c) ==> Equal(a, c)
  {
  }

  /** One argument of `HashUtil.hash`: a path or a string, either of which may be null. */
  datatype HashField = PathField(path: Option<Path>) | TextField(text: Option<string>)

  /** The fields `hashCode` feeds to `HashUtil.hash`, in order. */
  function HashFields(m: Module): seq<HashField> {
    [PathField(Some(m.modulePath)), PathField(m.sourcePath), PathField(m.sourceResourcePath),
     PathField(m.testUnitPath), PathField(m.testUnitResourcePath), PathField(m.testIntegrationPath),
     PathField(m.testIntegrationResourcePath), TextField(m.checksum)]
  }

  function HashFold(acc: int, fields: seq<HashField>, hash: (int, HashField) -> int): int
    decreases |fields|
  {
    if fields == [] then acc else HashFold(hash(acc, fields[0]), fields[1..], hash)
  }

  /** `hashCode`: `HashUtil.hash` (the parameter `hash`) folded over the fields, starting from 0. */
  function HashCode(m: Module, hash: (int, HashField) -> int): int {
    HashFold(0, HashFields(m), hash)
  }

  /** `hashCode` reads exactly the fields `equals` compares. */
  lemma HashFieldsMatchEquality(a: Module, b: Module)
    ensures HashFields(a) == HashFields(b) <==> Equal(a, b)
  {
    if HashFields(a) == HashFields(b) {
      assert HashFields(a)[0] == HashFields(b)[0];
      assert HashFields(a)[1] == HashFields(b)[1];
      assert HashFields(a)[2] == HashFields(b)[2];
      assert HashFields(a)[3] == HashFields(b)[3];
      assert HashFields(a)[4] == HashFields(b)[4];
      assert HashFields(a)[5] == HashFields(b)[5];
      assert HashFields(a)[6] == HashFields(b)[6];
      assert HashFields(a)[7] == HashFields(b)[7];
    }
  }

  /** Equal modules have equal hash codes, whatever `HashUtil.hash` computes. */
  lemma EqualModulesHashEqually(a: Module, b: Module, hash: (int, HashField) -> int)
    requires Equal(a, b)
    ensures HashCode(a, hash) == HashCode(b, hash)
  {
    HashFieldsMatchEquality(a, b);
  }

  // ---------------------------------------------------------------------
  // The persisted record

  const ModulePathKey := "module.path"
  const SourcePathKey := "source.path"
  const SourceResourcePathKey := "source.resource.path"
  const TestUnitPathKey := "test.unit.path"
  const TestUnitResourcePathKey := "test.unit.resource.path"
  const TestIntegrationPathKey := "test.integration.path"
  const TestIntegrationResourcePathKey := "test.integration.resource.path"
  const ChecksumKey := "checksum"

  /** `_putProperty`: stores the value under `name` unless it is null. */
  function PutProperty(props: Properties, name: string, value: Option<string>): (r: Properties)
    ensures r.Keys == if value.Some? then props.Keys + {name} else props.Keys
    ensures value.Some? ==> r[name] == value.value
    ensures forall k :: k in props && k != name ==> r[k] == props[k]
  {
    if value.Some? then props[name := value.value] else props
  }

  function PathValue(p: Option<Path>): Option<string> {
    if p.Some? then Some(PathString(p.value)) else None
  }

  /** A key and the value `_save` passes to `_putProperty` for it. */
  type Entry = (string, Option<string>)

  ghost predicate DistinctKeys(entries: seq<Entry>) {
    forall i, j :: 0 <= i < j < |entries| ==> entries[i].0 != entries[j].0
  }

  /** A run of `_putProperty` calls, in order. */
  function Fill(props: Properties, entries: seq<Entry>): Properties
    decreases |entries|
  {
    if entries == [] then props else Fill(PutProperty(props, entries[0].0, entries[0].1), entries[1..])
  }

  /** Keys no entry names keep their value. */
  lemma {:induction false} FillKeeps(props: Properties, entries: seq<Entry>, k: string)
    requires forall j :: 0 <= j < |entries| ==> entries[j].0 != k
    ensures k in Fill(props, entries) <==> k in props
    ensures k in props ==> Fill(props, entries)[k] == props[k]
    decreases |entries|
  {
    if entries != [] {
      FillKeeps(PutProperty(props, entries[0].0, entries[0].1), entries[1..], k);
    }
  }

  /** Filling adds no key that no entry names. */
  lemma {:induction false} FillKeys(props: Properties, entries: seq<Entry>, k: string)
    requires k in Fill(props, entries)
    ensures k in props || exists j :: 0 <= j < |entries| && entries[j].0 == k
    decreases |entries|
  {
    if entries != [] {
      var next := PutProperty(props, entries[0].0, entries[0].1);
      FillKeys(next, entries[1..], k);
      if k !in next {
        var j :| 0 <= j < |entries[1..]| && entries[1..][j].0 == k;
        assert entries[j + 1].0 == k;
      }
    }
  }

  /** With distinct keys, each key ends up holding its entry's value, or is left out when that value is null. */
  lemma {:induction false} FillLookup(props: Properties, entries: seq<Entry>, i: nat)
    requires DistinctKeys(entries)
    requires forall j :: 0 <= j < |entries| ==> entries[j].0 !in props
    requires i < |entries|
    ensures entries[i].0 in Fill(props, entries) <==> entries[i].1.Some?
    ensures entries[i].1.Some? ==> Fill(props, entries)[entries[i].0] == entries[i].1.value
    decreases |entries|
  {
    var next := PutProperty(props, entries[0].0, entries[0].1);
    if i == 0 {
      FillKeeps(next, entries[1..], entries[0].0);
    } else {
      forall j | 0 <= j < |entries[1..]| ensures entries[1..][j].0 !in next {
        assert entries[1..][j] == entries[j + 1];
      }
      FillLookup(next, entries[1..], i - 1);
      assert entries[1..][i - 1] == entries[i];
    }
  }

  /** The `_putProperty` calls of `_save`, in order; the checksum is taken from `build.gradle` at save time. */
  function RecordEntries(fs: FileSystem, m: Module, digest: Bytes -> string): seq<Entry> {
    [(ModulePathKey, Some(PathString(m.modulePath))),
     (SourcePathKey, PathValue(m.sourcePath)),
     (SourceResourcePathKey, PathValue(m.sourceResourcePath)),
     (TestUnitPathKey, PathValue(m.testUnitPath)),
     (TestUnitResourcePathKey, PathValue(m.testUnitResourcePath)),
     (TestIntegrationPathKey, PathValue(m.testIntegrationPath)),
     (TestIntegrationResourcePathKey, PathValue(m.testIntegrationResourcePath)),
     (ChecksumKey, Checksum(fs, m.modulePath, digest))]
  }

  /** The properties `_save` writes. */
  function Record(fs: FileSystem, m: Module, digest: Bytes -> string): Properties {
    Fill(map[], RecordEntries(fs, m, digest))
  }

  /**
   * The record holds the module path, each layout path that is present and the
   * checksum when `build.gradle` exists, and nothing else.
   */
  lemma RecordContents(fs: FileSystem, m: Module, digest: Bytes -> string)
    ensures var r := Record(fs, m, digest);
      && r.Keys <= {ModulePathKey, SourcePathKey, SourceResourcePathKey, TestUnitPathKey,
                    TestUnitResourcePathKey, TestIntegrationPathKey, TestIntegrationResourcePathKey, ChecksumKey}
      && ModulePathKey in r && r[ModulePathKey] == PathString(m.modulePath)
      && (SourcePathKey in r <==> m.sourcePath.Some?)
      && (m.sourcePath.Some? ==> r[SourcePathKey] == PathString(m.sourcePath.value))
      && (SourceResourcePathKey in r <==> m.sourceResourcePath.Some?)
      && (m.sourceResourcePath.Some? ==> r[SourceResourcePathKey] == PathString(m.sourceResourcePath.value))
      && (TestUnitPathKey in r <==> m.testUnitPath.Some?)
      && (m.testUnitPath.Some? ==> r[TestUnitPathKey] == PathString(m.testUnitPath.value))
      && (TestUnitResourcePathKey in r <==> m.testUnitResourcePath.Some?)
      && (m.testUnitResourcePath.Some? ==> r[TestUnitResourcePathKey] == PathString(m.testUnitResourcePath.value))
      && (TestIntegrationPathKey in r <==> m.testIntegrationPath.Some?)
      && (m.testIntegrationPath.Some? ==> r[TestIntegrationPathKey] == PathString(m.testIntegrationPath.value))
      && (TestIntegrationResourcePathKey in r <==> m.testIntegrationResourcePath.Some?)
      && (m.testIntegrationResourcePath.Some? ==>
            r[TestIntegrationResourcePathKey] == PathString(m.testIntegrationResourcePath.value))
      && (ChecksumKey in r <==> m.modulePath + [BuildGradle] in fs.paths)
      && (ChecksumKey in r ==> r[ChecksumKey] == digest(fs.Read(m.modulePath + [BuildGradle])))
  {
    var entries := RecordEntries(fs, m, digest);
    assert DistinctKeys(entries);
    forall i | 0 <= i < |entries|
      ensures (entries[i].0 in Record(fs, m, digest) <==> entries[i].1.Some?)
      ensures entries[i].1.Some? ==> Record(fs, m, digest)[entries[i].0] == entries[i].1.value
    {
      FillLookup(map[], entries, i);
    }
    forall k | k in Record(fs, m, digest)
      ensures k in {ModulePathKey, SourcePathKey, SourceResourcePathKey, TestUnitPathKey,
                    TestUnitResourcePathKey, TestIntegrationPathKey, TestIntegrationResourcePathKey, ChecksumKey}
    {
      FillKeys(map[], entries, k);
    }
    assert entries[0].0 == ModulePathKey;
    assert entries[1].0 == SourcePathKey;
    assert entries[2].0 == SourceResourcePathKey;
    assert entries[3].0 == TestUnitPathKey;
    assert entries[4].0 == TestUnitResourcePathKey;
    assert entries[5].0 == TestIntegrationPathKey;
    assert entries[6].0 == TestIntegrationResourcePathKey;
    assert entries[7].0 == ChecksumKey;
  }

  /**
   * `_save`: creates the project directory and writes the record to
   * `module-info.properties` inside it.
   */
  function SaveFs(fs: FileSystem, m: Module, digest: Bytes -> string): (r: FileSystem)
    requires m.projectPath.Some?
    ensures r.paths == fs.paths + Ancestors(m.projectPath.value) + {m.projectPath.value + [ModuleInfo]}
    ensures r.records == fs.records[m.projectPath.value + [ModuleInfo] := Record(fs, m, digest)]
    ensures r.bytes == fs.bytes
  {
    var infoFile := m.projectPath.value + [ModuleInfo];
    fs.(paths := fs.paths + Ancestors(m.projectPath.value) + {infoFile},
        records := fs.records[infoFile := Record(fs, m, digest)])
  }

  /** `_getPath`: a missing key reads as a null path. */
  function GetPath(props: Properties, key: string): (r: Option<Path>)
    ensures r.None? <==> key !in props
    ensures r.Some? ==> r.value == ParsePath(props[key])
  {
    if key in props then Some(ParsePath(props[key])) else None
  }

  /** What `load` can come to: no record file, a record, or a record without `module.path` (a null-pointer exception). */
  datatype LoadResult = NoRecord | Loaded(loaded: Module) | Unreadable

  /** `load`: reads the record in the project directory `projectPath`. */
  function Load(fs: FileSystem, projectPath: Path): (r: LoadResult)
    ensures r.NoRecord? <==> projectPath + [ModuleInfo] !in fs.paths
    ensures r.Unreadable? <==>
      projectPath + [ModuleInfo] in fs.paths && ModulePathKey !in fs.LoadProperties(projectPath + [ModuleInfo])
    ensures r.Loaded? ==>
      && r.loaded.projectPath == Some(projectPath)
      && r.loaded.moduleDependencies.None? && r.loaded.jarDependencies.None?
  {
    var infoFile := projectPath + [ModuleInfo];
    if infoFile !in fs.paths then NoRecord
    else
      var props := fs.LoadProperties(infoFile);
      if ModulePathKey !in props then Unreadable
      else
        Loaded(Module(Some(projectPath), ParsePath(props[ModulePathKey]),
          GetPath(props, SourcePathKey),
          GetPath(props, SourceResourcePathKey),
          GetPath(props, TestUnitPathKey),
          GetPath(props, TestUnitResourcePathKey),
          GetPath(props, TestIntegrationPathKey),
          GetPath(props, TestIntegrationResourcePathKey),
          None, None,
          if ChecksumKey in props then Some(props[ChecksumKey]) else None))
  }

  predicate WellFormedOption(p: Option<Path>) {
    p.Some? ==> WellFormed(p.value)
  }

  /** Every path of the module is well-formed, so it survives printing and parsing. */
  predicate WellFormedModule(m: Module) {
    && WellFormed(m.modulePath)
    && WellFormedOption(m.sourcePath)
    && WellFormedOption(m.sourceResourcePath)
    && WellFormedOption(m.testUnitPath)
    && WellFormedOption(m.testUnitResourcePath)
    && WellFormedOption(m.testIntegrationPath)
    && WellFormedOption(m.testIntegrationResourcePath)
  }

  lemma GetPathOfPathValue(props: Properties, key: string, p: Option<Path>)
    requires WellFormedOption(p)
    requires key in props <==> p.Some?
    requires p.Some? ==> props[key] == PathString(p.value)
    ensures GetPath(props, key) == p
  {
    if p.Some? {
      ParsePathString(p.value);
    }
  }

  /**
   * Saving then loading gives the module back without its dependency lists,
   * provided `build.gradle` is the one the module's checksum was taken from.
   */
  lemma SaveLoadRoundTrip(fs: FileSystem, m: Module, digest: Bytes -> string)
    requires m.projectPath.Some? && WellFormedModule(m)
    requires m.checksum == Checksum(fs, m.modulePath, digest)
    ensures Load(SaveFs(fs, m, digest), m.projectPath.value)
            == Loaded(m.(moduleDependencies := None, jarDependencies := None))
  {
    var saved := SaveFs(fs, m, digest);
    var infoFile := m.projectPath.value + [ModuleInfo];
    var props := Record(fs, m, digest);
    assert saved.LoadProperties(infoFile) == props;
    RecordContents(fs, m, digest);
    ParsePathString(m.modulePath);
    GetPathOfPathValue(props, SourcePathKey, m.sourcePath);
    GetPathOfPathValue(props, SourceResourcePathKey, m.sourceResourcePath);
    GetPathOfPathValue(props, TestUnitPathKey, m.testUnitPath);
    GetPathOfPathValue(props, TestUnitResourcePathKey, m.testUnitResourcePath);
    GetPathOfPathValue(props, TestIntegrationPathKey, m.testIntegrationPath);
    GetPathOfPathValue(props, TestIntegrationResourcePathKey, m.testIntegrationResourcePath);
  }

  /** The loaded record equals the saved module. */
  lemma SaveLoadEqual(fs: FileSystem, m: Module, digest: Bytes -> string)
    requires m.projectPath.Some? && WellFormedModule(m)
    requires m.checksum == Checksum(fs, m.modulePath, digest)
    ensures Load(SaveFs(fs, m, digest), m.projectPath.value).Loaded?
    ensures Equal(Load(SaveFs(fs, m, digest), m.projectPath.value).loaded, m)
  {
    SaveLoadRoundTrip(fs, m, digest);
  }

  // ---------------------------------------------------------------------
  // createModule

  predicate IsJarName(name: string) {
    |name| >= 4 && name[|name| - 4..] == ".jar"
  }

  /** The entries of the `lib` directory that the glob `*.jar` matches; none when `lib` does not exist. */
  function LibJars(fs: FileSystem, m: Path): (r: set<Path>)
    ensures forall p :: p in r ==> p in fs.paths && |p| == |m| + 2 && p[..|m| + 1] == m + ["lib"]
    ensures forall p :: p in r <==>
      m + ["lib"] in fs.paths && p in Children(fs, m + ["lib"]) && |p| > 0 && IsJarName(p[|p| - 1])
  {
    var lib := m + ["lib"];
    if lib in fs.paths then set p | p in Children(fs, lib) && IsJarName(p[|p| - 1]) else {}
  }

  /** The jars found depend only on the subtree below the module root. */
  lemma LibJarsIsLocal(fs1: FileSystem, fs2: FileSystem, m: Path)
    requires SameSubtree(fs1, fs2, m)
    ensures LibJars(fs1, m) == LibJars(fs2, m)
  {
    assert m <= m + ["lib"];
    forall c | |c| == |m| + 2 && m + ["lib"] < c ensures c in fs1.paths <==> c in fs2.paths {
      assert m <= c;
    }
  }

  /**
   * `jars` is `base` followed by one `JarDependency(path, false)` for each path
   * of `added`, each path once, in some order.
   */
  ghost predicate AppendsEach(base: seq<JarDependency>, jars: seq<JarDependency>, added: set<Path>) {
    && |base| <= |jars| && jars[..|base|] == base
    && (forall i :: |base| <= i < |jars| ==> !jars[i].flag && jars[i].path in added)
    && (forall i, j :: |base| <= i < j < |jars| ==> jars[i].path != jars[j].path)
    && (forall p :: p in added ==> exists i :: |base| <= i < |jars| && jars[i].path == p)
  }

  /** The module of the freshly created record that equality compares, as `Describe` gives it. */
  function Assemble(projectPath: Option<Path>, id: Identity, modules: seq<ModuleDependency>,
                    jars: seq<JarDependency>): (m: Module)
    ensures IdentityOf(m) == id
  {
    Module(projectPath, id.modulePath, id.sourcePath, id.sourceResourcePath, id.testUnitPath,
      id.testUnitResourcePath, id.testIntegrationPath, id.testIntegrationResourcePath,
      Some(modules), Some(jars), id.checksum)
  }

  /**
   * The loop of `createModule` over the `*.jar` entries of `lib`: appends
   * `JarDependency(path, false)` for each of them to `base`, keeping the
   * existing entries; when `lib` does not exist the list is left as it is.
   */
  method AppendLibJars(fs: FileSystem, modulePath: Path, base: seq<JarDependency>)
    returns (jars: seq<JarDependency>)
    ensures AppendsEach(base, jars, LibJars(fs, modulePath))
    ensures modulePath + ["lib"] !in fs.paths ==> jars == base
  {
    jars := base;
    if modulePath + ["lib"] !in fs.paths {
      assert LibJars(fs, modulePath) == {};
      return;
    }
    var remaining := LibJars(fs, modulePath);
    ghost var all := remaining;
    while remaining != {}
      invariant remaining <= all
      invariant |base| <= |jars| && jars[..|base|] == base
      invariant forall i :: |base| <= i < |jars| ==> !jars[i].flag && jars[i].path in all - remaining
      invariant forall i, j :: |base| <= i < j < |jars| ==> jars[i].path != jars[j].path
      invariant forall p :: p in all - remaining ==> exists i :: |base| <= i < |jars| && jars[i].path == p
      decreases remaining
    {
      var p :| p in remaining;
      ghost var previous, before := jars, remaining;
      jars := jars + [JarDependency(p, false)];
      remaining := remaining - {p};
      forall q | q in all - remaining ensures exists i :: |base| <= i < |jars| && jars[i].path == q {
        if q == p {
          assert jars[|jars| - 1].path == q;
        } else {
          assert q in all - before;
          var i :| |base| <= i < |previous| && previous[i].path == q;
          assert jars[i] == previous[i];
        }
      }
    }
    assert all - remaining == all;
  }

  /**
   * `createModule`: extends the given jar list (a new one when it is null) with
   * the jars of `lib`, resolves the layout, takes the checksum, and, when a
   * project path is given, saves the record. `moduleDependencies` stands for
   * `GradleUtil.getModuleDependencies`.
   */
  method CreateModule(fs: FileSystem, projectPath: Option<Path>, modulePath: Path,
                      jarDependencies: Option<seq<JarDependency>>, digest: Bytes -> string,
                      moduleDependencies: Path -> seq<ModuleDependency>)
    returns (m: Module, fs': FileSystem)
    ensures m.projectPath == projectPath
    ensures IdentityOf(m) == Describe(fs, modulePath, digest)
    ensures m.moduleDependencies == Some(moduleDependencies(modulePath))
    ensures m.jarDependencies.Some?
    ensures AppendsEach(jarDependencies.GetOr([]), m.jarDependencies.value, LibJars(fs, modulePath))
    ensures modulePath + ["lib"] !in fs.paths ==> m.jarDependencies.value == jarDependencies.GetOr([])
    ensures projectPath.None? ==> fs' == fs
    ensures projectPath.Some? ==> fs' == SaveFs(fs, m, digest)
  {
    var jars := AppendLibJars(fs, modulePath, jarDependencies.GetOr([]));
    var id := Describe(fs, modulePath, digest);
    m := Assemble(projectPath, id, moduleDependencies(modulePath), jars);
    fs' := fs;
    if projectPath.Some? {
      fs' := SaveFs(fs, m, digest);
    }
  }

  /** A module root given as a well-formed path yields a well-formed record. */
  lemma DescribeWellFormed(fs: FileSystem, m: Path, digest: Bytes -> string)
    requires WellFormed(m)
    ensures
      var id := Describe(fs, m, digest);
      && WellFormedOption(id.sourcePath) && WellFormedOption(id.sourceResourcePath)
      && WellFormedOption(id.testUnitPath) && WellFormedOption(id.testUnitResourcePath)
      && WellFormedOption(id.testIntegrationPath) && WellFormedOption(id.testIntegrationResourcePath)
  {
    WellFormedAppend(m, ["docroot", "WEB-INF", "src"]);
    WellFormedAppend(m, ["src", "main", "java"]);
    WellFormedAppend(m, ["src"]);
    WellFormedAppend(m, ["src", "main", "resources"]);
    WellFormedAppend(m, ["src", "test", "resources"]);
    WellFormedAppend(m, ["src", "testIntegration", "resources"]);
    WellFormedAppend(m, ["src", "test", "java"]);
    WellFormedAppend(m, ["test", "unit"]);
    WellFormedAppend(m, ["src", "testIntegration", "java"]);
    WellFormedAppend(m, ["test", "integration"]);
  }
}
