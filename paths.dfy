/**
 * An abstract filesystem. A path is the sequence of its names below the
 * filesystem root (the root itself is the empty sequence); a filesystem is the
 * finite set of paths that exist, the bytes of the files that are read, and the
 * parsed contents of the properties files that are read.
 */
module FilePaths {
  import opened Wrappers

  type Path = seq<string>
  type Bytes = seq<bv8>
  /** A properties file, as the key/value map `java.util.Properties` holds. */
  type Properties = map<string, string>

  datatype FileSystem = FileSystem(
    paths: set<Path>,
    bytes: map<Path, Bytes>,
    records: map<Path, Properties>)
  {
    /** `Files.exists`. */
    predicate Exists(p: Path) {
      p in paths
    }

    /** `Files.readAllBytes`; a file whose bytes are not given reads as empty. */
    function Read(p: Path): Bytes {
      if p in bytes then bytes[p] else []
    }

    /** Loads a properties file; a file whose contents are not given holds no keys. */
    function LoadProperties(p: Path): Properties {
      if p in records then records[p] else map[]
    }
  }

  /** `Path.getFileName`: the last name, absent for the root. */
  function FileName(p: Path): (r: Option<string>)
    ensures r.None? <==> p == []
    ensures r.Some? ==> p == p[..|p| - 1] + [r.value]
  {
    if p == [] then None else Some(p[|p| - 1])
  }

  /** `Path.getParent`: everything but the last name, absent for the root. */
  function Parent(p: Path): (r: Option<Path>)
    ensures r.None? <==> p == []
    ensures r.Some? ==> |r.value| + 1 == |p| && r.value < p
  {
    if p == [] then None else Some(p[..|p| - 1])
  }

  /** `Path.endsWith(name)` for a single name: the last name is `name`. */
  predicate EndsWith(p: Path, name: string) {
    |p| > 0 && p[|p| - 1] == name
  }

  /** The paths that exist directly below `d`, as a directory stream lists them. */
  function Children(fs: FileSystem, d: Path): (r: set<Path>)
    ensures forall c :: c in r <==> c in fs.paths && |c| == |d| + 1 && d < c
  {
    set c | c in fs.paths && |c| == |d| + 1 && d < c
  }

  /** Every path from the root down to `p`, as `Files.createDirectories` creates them. */
  function Ancestors(p: Path): (r: set<Path>)
    ensures forall q :: q in r <==> q <= p
  {
    var r := set k | 0 <= k <= |p| :: p[..k];
    forall q | q <= p ensures q in r {
      assert q == p[..|q|];
    }
    r
  }

  /** Two paths that are not prefixes of one another: their subtrees are disjoint. */
  predicate Unrelated(a: Path, b: Path) {
    !(a <= b) && !(b <= a)
  }

  /** Everything below `a` is unrelated to everything below `b` when `a` and `b` are unrelated. */
  lemma {:induction false} UnrelatedSubtrees(a: Path, b: Path, p: Path, q: Path)
    requires Unrelated(a, b) && a <= p && b <= q
    ensures p != q && Unrelated(a, q) && Unrelated(p, b) && Unrelated(p, q)
  {
    var k :| 0 <= k < |a| && k < |b| && a[k] != b[k];
    assert p[k] == a[k] && q[k] == b[k];
  }

  /** `FileUtil.delete` of a directory: removes it and everything below it. */
  function DeleteTree(fs: FileSystem, d: Path): (r: FileSystem)
    ensures forall p :: p in r.paths <==> p in fs.paths && !(d <= p)
    ensures forall p :: p in r.records <==> p in fs.records && !(d <= p)
    ensures forall p :: p in r.records ==> r.records[p] == fs.records[p]
    ensures r.bytes == fs.bytes
  {
    var kept := set p | p in fs.paths && !(d <= p);
    var keptRecords := map p | p in fs.records && !(d <= p) :: fs.records[p];
    fs.(paths := kept, records := keptRecords)
  }

  /** Two prefixes of one path are prefixes of one another. */
  lemma {:induction false} PrefixesRelated(a: Path, b: Path, p: Path)
    requires a <= p && b <= p
    ensures a <= b || b <= a
  {
    if |a| <= |b| {
      assert a == p[..|a|] == b[..|a|];
    } else {
      assert b == p[..|b|] == a[..|b|];
    }
  }

  /** Every ancestor of an existing path exists, as on a real filesystem. */
  ghost predicate PrefixClosed(fs: FileSystem) {
    forall p, k :: p in fs.paths && 0 <= k <= |p| ==> p[..k] in fs.paths
  }

  /** Deleting a subtree keeps a filesystem prefix-closed. */
  lemma DeleteTreePrefixClosed(fs: FileSystem, d: Path)
    requires PrefixClosed(fs)
    ensures PrefixClosed(DeleteTree(fs, d))
  {
    var r := DeleteTree(fs, d);
    forall p, k | p in r.paths && 0 <= k <= |p| ensures p[..k] in r.paths {
      assert p[..k] <= p;
    }
  }

  /**
   * `fs2` differs from `fs1` only strictly below `d`: every other path exists
   * in both or in neither and has the same record, and no file changes bytes.
   */
  ghost predicate ChangesOnlyBelow(fs1: FileSystem, fs2: FileSystem, d: Path) {
    && (forall p :: !(d < p) ==> (p in fs1.paths <==> p in fs2.paths))
    && (forall p :: !(d < p) ==> (p in fs1.records <==> p in fs2.records))
    && (forall p :: !(d < p) && p in fs1.records ==> fs2.records[p] == fs1.records[p])
    && fs1.bytes == fs2.bytes
  }

  lemma ChangesOnlyBelowTransitive(fs1: FileSystem, fs2: FileSystem, fs3: FileSystem, d: Path)
    requires ChangesOnlyBelow(fs1, fs2, d) && ChangesOnlyBelow(fs2, fs3, d)
    ensures ChangesOnlyBelow(fs1, fs3, d)
  {
  }

  /** Deleting a subtree strictly below `d` changes nothing outside `d`. */
  lemma DeleteTreeChangesOnlyBelow(fs: FileSystem, d: Path, name: string)
    ensures ChangesOnlyBelow(fs, DeleteTree(fs, d + [name]), d)
  {
    var r := DeleteTree(fs, d + [name]);
    forall p | !(d < p) ensures (p in fs.paths <==> p in r.paths) && (p in fs.records <==> p in r.records) {
      assert !(d + [name] <= p);
    }
  }

  /** Changes confined below `d` leave alone every subtree whose root is unrelated to an ancestor of `d`. */
  lemma ChangesOnlyBelowKeepsSubtree(fs1: FileSystem, fs2: FileSystem, d: Path, a: Path, e: Path)
    requires ChangesOnlyBelow(fs1, fs2, d) && a <= d && Unrelated(a, e)
    ensures SameSubtree(fs1, fs2, e)
  {
    forall p | e <= p ensures p in fs1.paths <==> p in fs2.paths {
      if d < p {
        UnrelatedSubtrees(a, e, p, p);
      }
    }
  }

  /**
   * The two filesystems agree on the subtree below `d`: the same paths exist
   * there and every file there has the same bytes.
   */
  ghost predicate SameSubtree(fs1: FileSystem, fs2: FileSystem, d: Path) {
    && (forall p :: d <= p ==> (p in fs1.paths <==> p in fs2.paths))
    && (forall p :: d <= p ==> fs1.Read(p) == fs2.Read(p))
  }

  /** Agreement on a subtree is agreement on every subtree inside it. */
  lemma SameSubtreeBelow(fs1: FileSystem, fs2: FileSystem, a: Path, b: Path)
    requires SameSubtree(fs1, fs2, a) && a <= b
    ensures SameSubtree(fs1, fs2, b)
  {
    forall p | b <= p ensures (p in fs1.paths <==> p in fs2.paths) && fs1.Read(p) == fs2.Read(p) {
      assert a <= p;
    }
  }

  /**
   * The ordered-fallback rule the layout resolvers share: the index of the
   * first candidate that exists, or `|candidates|` when none does.
   */
  function FirstExistingIndex(fs: FileSystem, candidates: seq<Path>): (k: nat)
    ensures k <= |candidates|
    ensures forall j :: 0 <= j < k ==> candidates[j] !in fs.paths
    ensures k < |candidates| ==> candidates[k] in fs.paths
    decreases |candidates|
  {
    if candidates == [] then 0
    else if candidates[0] in fs.paths then 0
    else 1 + FirstExistingIndex(fs, candidates[1..])
  }

  /** The first candidate that exists, or absent when none does. */
  function FirstExisting(fs: FileSystem, candidates: seq<Path>): (r: Option<Path>)
    ensures r.None? <==> forall j :: 0 <= j < |candidates| ==> candidates[j] !in fs.paths
    ensures r.Some? ==> r.value in fs.paths && r.value in candidates
    ensures r.Some? ==>
      exists k :: 0 <= k < |candidates| && r.value == candidates[k] && (forall j :: 0 <= j < k ==> candidates[j] !in fs.paths)
  {
    var k := FirstExistingIndex(fs, candidates);
    if k < |candidates| then Some(candidates[k]) else None
  }

  /** The first candidate that exists: the head when it exists, otherwise the first of the rest. */
  lemma FirstExistingCons(fs: FileSystem, head: Path, rest: seq<Path>)
    ensures FirstExisting(fs, [head] + rest) == if head in fs.paths then Some(head) else FirstExisting(fs, rest)
  {
    assert ([head] + rest)[1..] == rest;
  }

  // Path <-> string, as `Path.toString` and `Paths.get` convert them for
  // absolute paths with '/' as the separator.

  /** Every name is non-empty and holds no separator, as in any parsed `Path`. */
  predicate WellFormed(p: Path) {
    forall i :: 0 <= i < |p| ==> p[i] != "" && '/' !in p[i]
  }

  function Slashed(p: Path): (s: string)
    ensures s == [] || s[0] == '/'
  {
    if p == [] then "" else "/" + p[0] + Slashed(p[1..])
  }

  /** `Path.toString` of an absolute path; the root prints as "/". */
  function PathString(p: Path): string {
    if p == [] then "/" else Slashed(p)
  }

  /** The length of the leading name of `s`, up to the first separator. */
  function NameLength(s: string): (n: nat)
    ensures n <= |s|
    ensures forall i :: 0 <= i < n ==> s[i] != '/'
    ensures n < |s| ==> s[n] == '/'
  {
    if s == [] || s[0] == '/' then 0 else 1 + NameLength(s[1..])
  }

  /** `Paths.get`: the non-empty names between separators, in order. */
  function ParsePath(s: string): (p: Path)
    decreases |s|
  {
    if s == [] then []
    else if s[0] == '/' then ParsePath(s[1..])
    else
      var n := NameLength(s);
      [s[..n]] + ParsePath(s[n..])
  }

  lemma {:induction false} NameLengthOfName(name: string, rest: string)
    requires '/' !in name
    requires rest == [] || rest[0] == '/'
    ensures NameLength(name + rest) == |name|
    decreases |name|
  {
    if name != [] {
      assert (name + rest)[1..] == name[1..] + rest;
      NameLengthOfName(name[1..], rest);
    }
  }

  lemma {:induction false} ParseSlashed(p: Path)
    requires WellFormed(p)
    ensures ParsePath(Slashed(p)) == p
    decreases |p|
  {
    if p != [] {
      var s := Slashed(p);
      var tail := p[0] + Slashed(p[1..]);
      assert s[1..] == tail;
      NameLengthOfName(p[0], Slashed(p[1..]));
      assert tail[..|p[0]|] == p[0];
      assert tail[|p[0]|..] == Slashed(p[1..]);
      ParseSlashed(p[1..]);
      assert p == [p[0]] + p[1..];
    }
  }

  /** `Paths.get(p.toString())` gives back `p`. */
  lemma ParsePathString(p: Path)
    requires WellFormed(p)
    ensures ParsePath(PathString(p)) == p
  {
    if p == [] {
      assert PathString(p)[1..] == [];
    } else {
      ParseSlashed(p);
    }
  }

  /** Appending well-formed names keeps a path well-formed. */
  lemma WellFormedAppend(p: Path, names: seq<string>)
    requires WellFormed(p) && WellFormed(names)
    ensures WellFormed(p + names)
  {
    forall i | 0 <= i < |p + names|
      ensures (p + names)[i] != "" && '/' !in (p + names)[i]
    {
      if i >= |p| {
        assert (p + names)[i] == names[i - |p|];
      }
    }
  }
}
