/**
 * The module discovery walk both builders run over the portal tree: at each
 * directory an excluded name prunes the subtree, a `src` child marks a module
 * root (yielded, subtree pruned), anything else is descended into.
 */
module DiscoveryWalker {
  import opened FilePaths

  /** The per-directory decision of the two `preVisitDirectory` visitors. */
  datatype Visit =
    | SkipExcluded    // SKIP_SUBTREE, nothing created
    | SkipModuleRoot  // the module is handled, then SKIP_SUBTREE
    | Descend         // CONTINUE

  /** The module-root marker: the directory has a `src` child. */
  predicate HasSrc(fs: FileSystem, d: Path) {
    d + ["src"] in fs.paths
  }

  /** The decision for directory `d`; `excluded` is the visitor's test on the directory's name. */
  function Decide(fs: FileSystem, excluded: string -> bool, d: Path): Visit
    requires |d| > 0
  {
    if excluded(d[|d| - 1]) then SkipExcluded
    else if HasSrc(fs, d) then SkipModuleRoot
    else Descend
  }

  /** The walk goes through directory `a` into its children. */
  ghost predicate PassesThrough(fs: FileSystem, excluded: string -> bool, a: Path) {
    |a| > 0 && a in fs.paths && Decide(fs, excluded, a) == Descend
  }

  /** The walk from `root` visits `d`: `d` exists and the walk passes through each directory above it. */
  ghost predicate Reached(fs: FileSystem, root: Path, excluded: string -> bool, d: Path) {
    && root <= d && d in fs.paths
    && forall k :: |root| <= k < |d| ==> PassesThrough(fs, excluded, d[..k])
  }

  /**
   * The declarative definition of what the walk yields: a directory the walk
   * reaches, whose name is not excluded and which holds `src`.
   */
  ghost predicate IsModuleRoot(fs: FileSystem, root: Path, excluded: string -> bool, d: Path) {
    |root| > 0 && Reached(fs, root, excluded, d) && Decide(fs, excluded, d) == SkipModuleRoot
  }

  lemma {:induction false} ChildReached(fs: FileSystem, root: Path, excluded: string -> bool, p: Path, c: Path)
    requires |root| > 0 && Reached(fs, root, excluded, p) && Decide(fs, excluded, p) == Descend
    requires c in Children(fs, p)
    ensures Reached(fs, root, excluded, c)
  {
    forall k | |root| <= k < |c| ensures PassesThrough(fs, excluded, c[..k]) {
      if k == |p| {
        assert c[..k] == p;
      } else {
        assert c[..k] == p[..k];
      }
    }
  }

  /** A module root below a directory the walk is about to pass through is also below one of its children. */
  lemma {:induction false} DescendTowards(fs: FileSystem, root: Path, excluded: string -> bool, p: Path, d: Path)
    requires IsModuleRoot(fs, root, excluded, d) && root <= p && p < d
    ensures Decide(fs, excluded, p) == Descend
    ensures d[..|p| + 1] in Children(fs, p) && d[..|p| + 1] <= d
  {
    assert d[..|p|] == p;
    var c := d[..|p| + 1];
    if |c| < |d| {
      assert PassesThrough(fs, excluded, d[..|c|]);
    } else {
      assert c == d;
    }
    assert p < c;
  }

  /** The walk passes through every directory strictly between `root` and a directory it reaches. */
  lemma {:induction false} PassesThroughAbove(fs: FileSystem, root: Path, excluded: string -> bool, a: Path, d: Path)
    requires Reached(fs, root, excluded, d) && root <= a && a < d
    ensures PassesThrough(fs, excluded, a)
  {
    assert d[..|a|] == a;
  }

  /** Module roots never nest. */
  lemma NoNestedRoots(fs: FileSystem, root: Path, excluded: string -> bool, a: Path, b: Path)
    requires IsModuleRoot(fs, root, excluded, a) && IsModuleRoot(fs, root, excluded, b)
    requires a <= b
    ensures a == b
  {
    if a != b {
      PassesThroughAbove(fs, root, excluded, a, b);
    }
  }

  /** Nothing at or below a directory with an excluded name is a module root. */
  lemma ExcludedSubtreeHasNoRoots(fs: FileSystem, root: Path, excluded: string -> bool, a: Path, d: Path)
    requires root <= a && |a| > 0 && excluded(a[|a| - 1])
    requires a <= d
    ensures !IsModuleRoot(fs, root, excluded, d)
  {
    if a != d && Reached(fs, root, excluded, d) {
      PassesThroughAbove(fs, root, excluded, a, d);
    }
  }

  /** The pending frontier: directories reached, not yet visited, below `root`, their parents visited. */
  ghost predicate FrontierInvariant(fs: FileSystem, root: Path, excluded: string -> bool,
                                    pending: set<Path>, visited: set<Path>) {
    && pending <= fs.paths && visited <= fs.paths && pending !! visited
    && (forall p :: p in pending ==> Reached(fs, root, excluded, p))
    && (forall p :: p in visited ==> root <= p)
    && (forall p :: p in visited + pending && p != root && |p| > 0 ==> p[..|p| - 1] in visited)
  }

  /** The roots yielded so far are distinct visited module roots. */
  ghost predicate RootsInvariant(fs: FileSystem, root: Path, excluded: string -> bool,
                                 visited: set<Path>, roots: seq<Path>) {
    && (forall i :: 0 <= i < |roots| ==> roots[i] in visited && IsModuleRoot(fs, root, excluded, roots[i]))
    && (forall i, j :: 0 <= i < j < |roots| ==> roots[i] != roots[j])
  }

  /** Every module root is yielded already or lies below a pending directory. */
  ghost predicate CompleteInvariant(fs: FileSystem, root: Path, excluded: string -> bool,
                                    pending: set<Path>, roots: seq<Path>) {
    forall d :: IsModuleRoot(fs, root, excluded, d) ==> d in roots || exists p :: p in pending && p <= d
  }

  /** What holds between two steps of the walk. */
  ghost predicate WalkInvariant(fs: FileSystem, root: Path, excluded: string -> bool,
                                pending: set<Path>, visited: set<Path>, roots: seq<Path>) {
    && |root| > 0
    && FrontierInvariant(fs, root, excluded, pending, visited)
    && RootsInvariant(fs, root, excluded, visited, roots)
    && CompleteInvariant(fs, root, excluded, pending, roots)
  }

  /** The pending set after visiting `p`: `p` leaves it, its children join it when the walk descends. */
  function NextPending(fs: FileSystem, excluded: string -> bool, pending: set<Path>, p: Path): set<Path>
    requires |p| > 0
  {
    (pending - {p}) + (if Decide(fs, excluded, p) == Descend then Children(fs, p) else {})
  }

  /** The roots after visiting `p`: `p` is yielded when it holds `src`. */
  function NextRoots(fs: FileSystem, excluded: string -> bool, roots: seq<Path>, p: Path): seq<Path>
    requires |p| > 0
  {
    roots + (if Decide(fs, excluded, p) == SkipModuleRoot then [p] else [])
  }

  /** A child of a directory on the frontier is reached and not yet visited. */
  lemma {:induction false} ChildOfFrontier(fs: FileSystem, root: Path, excluded: string -> bool,
                                           pending: set<Path>, visited: set<Path>, p: Path, c: Path)
    requires |root| > 0 && FrontierInvariant(fs, root, excluded, pending, visited) && p in pending && |p| > 0
    requires Decide(fs, excluded, p) == Descend && c in Children(fs, p)
    ensures Reached(fs, root, excluded, c) && c !in visited && c != p && c[..|c| - 1] == p
  {
    ChildReached(fs, root, excluded, p, c);
    assert c[..|c| - 1] == p;
  }

  /** The frontier after a step stays on reached, unvisited directories. */
  lemma {:induction false} FrontierStepReached(fs: FileSystem, root: Path, excluded: string -> bool,
                                               pending: set<Path>, visited: set<Path>, p: Path)
    requires |root| > 0 && FrontierInvariant(fs, root, excluded, pending, visited) && p in pending && |p| > 0
    ensures var pending' := NextPending(fs, excluded, pending, p);
      && pending' <= fs.paths && pending' !! visited + {p}
      && (forall q :: q in pending' ==> Reached(fs, root, excluded, q))
  {
    var children := if Decide(fs, excluded, p) == Descend then Children(fs, p) else {};
    assert NextPending(fs, excluded, pending, p) == (pending - {p}) + children;
    forall c | c in children
      ensures c in fs.paths && Reached(fs, root, excluded, c) && c !in visited + {p}
    {
      ChildOfFrontier(fs, root, excluded, pending, visited, p, c);
    }
  }

  /** After a step every directory on or behind the frontier other than `root` still has its parent visited. */
  lemma {:induction false} FrontierStepParents(fs: FileSystem, root: Path, excluded: string -> bool,
                                               pending: set<Path>, visited: set<Path>, p: Path)
    requires |root| > 0 && FrontierInvariant(fs, root, excluded, pending, visited) && p in pending && |p| > 0
    ensures var pending' := NextPending(fs, excluded, pending, p);
      forall q :: q in (visited + {p}) + pending' && q != root && |q| > 0 ==> q[..|q| - 1] in visited + {p}
  {
    var children := if Decide(fs, excluded, p) == Descend then Children(fs, p) else {};
    var pending' := NextPending(fs, excluded, pending, p);
    assert pending' == (pending - {p}) + children;
    forall q | q in (visited + {p}) + pending' && q != root && |q| > 0
      ensures q[..|q| - 1] in visited + {p}
    {
      if q in children {
        ChildOfFrontier(fs, root, excluded, pending, visited, p, q);
      } else {
        assert q in visited + pending;
      }
    }
  }

  lemma {:induction false} FrontierStep(fs: FileSystem, root: Path, excluded: string -> bool,
                                        pending: set<Path>, visited: set<Path>, p: Path)
    requires |root| > 0 && FrontierInvariant(fs, root, excluded, pending, visited) && p in pending && |p| > 0
    ensures FrontierInvariant(fs, root, excluded, NextPending(fs, excluded, pending, p), visited + {p})
  {
    FrontierStepReached(fs, root, excluded, pending, visited, p);
    FrontierStepParents(fs, root, excluded, pending, visited, p);
  }

  lemma {:induction false} RootsStep(fs: FileSystem, root: Path, excluded: string -> bool,
                                     pending: set<Path>, visited: set<Path>, roots: seq<Path>, p: Path)
    requires |root| > 0 && FrontierInvariant(fs, root, excluded, pending, visited)
    requires RootsInvariant(fs, root, excluded, visited, roots) && p in pending && |p| > 0
    ensures RootsInvariant(fs, root, excluded, visited + {p}, NextRoots(fs, excluded, roots, p))
  {
    var roots' := NextRoots(fs, excluded, roots, p);
    forall i | 0 <= i < |roots'|
      ensures roots'[i] in visited + {p} && IsModuleRoot(fs, root, excluded, roots'[i])
    {
      if i < |roots| {
        assert roots'[i] == roots[i];
      }
    }
  }

  lemma {:induction false} CompleteStep(fs: FileSystem, root: Path, excluded: string -> bool,
                                        pending: set<Path>, roots: seq<Path>, p: Path)
    requires |root| > 0 && CompleteInvariant(fs, root, excluded, pending, roots)
    requires p in pending && Reached(fs, root, excluded, p) && |p| > 0
    ensures CompleteInvariant(fs, root, excluded, NextPending(fs, excluded, pending, p), NextRoots(fs, excluded, roots, p))
  {
    var pending' := NextPending(fs, excluded, pending, p);
    var roots' := NextRoots(fs, excluded, roots, p);
    forall d | IsModuleRoot(fs, root, excluded, d) && d !in roots'
      ensures exists q :: q in pending' && q <= d
    {
      var q :| q in pending && q <= d;
      if q == p && p != d {
        DescendTowards(fs, root, excluded, p, d);
        assert d[..|p| + 1] in pending';
      } else if q != p {
        assert q in pending';
      }
    }
  }

  /** One visit keeps the invariant and leaves fewer directories unvisited. */
  lemma {:induction false} WalkStep(fs: FileSystem, root: Path, excluded: string -> bool,
                                    pending: set<Path>, visited: set<Path>, roots: seq<Path>, p: Path)
    requires WalkInvariant(fs, root, excluded, pending, visited, roots) && p in pending
    ensures |p| > 0
    ensures WalkInvariant(fs, root, excluded, NextPending(fs, excluded, pending, p), visited + {p},
                          NextRoots(fs, excluded, roots, p))
    ensures |fs.paths - (visited + {p})| < |fs.paths - visited|
  {
    assert root <= p;
    FrontierStep(fs, root, excluded, pending, visited, p);
    RootsStep(fs, root, excluded, pending, visited, roots, p);
    CompleteStep(fs, root, excluded, pending, roots, p);
    assert fs.paths - (visited + {p}) == (fs.paths - visited) - {p};
  }

  /** The walk starts with only `root` pending. */
  lemma WalkStart(fs: FileSystem, root: Path, excluded: string -> bool)
    requires |root| > 0 && root in fs.paths
    ensures WalkInvariant(fs, root, excluded, {root}, {}, [])
  {
    assert Reached(fs, root, excluded, root);
    var start: set<Path> := {root};
    forall d | IsModuleRoot(fs, root, excluded, d) ensures exists p :: p in start && p <= d {
      assert root in start;
    }
  }

  /** When nothing is pending the roots yielded are exactly the module roots. */
  lemma {:induction false} WalkDone(fs: FileSystem, root: Path, excluded: string -> bool,
                                    visited: set<Path>, roots: seq<Path>)
    requires WalkInvariant(fs, root, excluded, {}, visited, roots)
    ensures forall d :: d in roots <==> IsModuleRoot(fs, root, excluded, d)
    ensures forall i, j :: 0 <= i < j < |roots| ==> roots[i] != roots[j]
    ensures forall i, j :: 0 <= i < |roots| && 0 <= j < |roots| && i != j ==> !(roots[i] <= roots[j])
    ensures forall i, k :: 0 <= i < |roots| && |root| - 1 <= k < |roots[i]| ==> !excluded(roots[i][k])
    ensures forall i :: 0 <= i < |roots| ==> roots[i] + ["src"] in fs.paths
  {
    forall i, j | 0 <= i < |roots| && 0 <= j < |roots| && i != j ensures !(roots[i] <= roots[j]) {
      if roots[i] <= roots[j] {
        NoNestedRoots(fs, root, excluded, roots[i], roots[j]);
      }
    }
    forall i, k | 0 <= i < |roots| && |root| - 1 <= k < |roots[i]| ensures !excluded(roots[i][k]) {
      var d := roots[i];
      if k < |d| - 1 {
        assert PassesThrough(fs, excluded, d[..k + 1]);
      }
    }
  }

  /**
   * `Files.walkFileTree` from `root` with the decision above: yields every
   * module root exactly once, each an existing directory whose name and whose
   * ancestors' names down from `root` are not excluded, none inside another.
   * The order of the yield depends on the directory listing and is not fixed.
   */
  method Discover(fs: FileSystem, root: Path, excluded: string -> bool) returns (roots: seq<Path>)
    requires |root| > 0 && root in fs.paths
    ensures forall d :: d in roots <==> IsModuleRoot(fs, root, excluded, d)
    ensures forall i, j :: 0 <= i < j < |roots| ==> roots[i] != roots[j]
    ensures forall i, j :: 0 <= i < |roots| && 0 <= j < |roots| && i != j ==> !(roots[i] <= roots[j])
    ensures forall i, k :: 0 <= i < |roots| && |root| - 1 <= k < |roots[i]| ==> !excluded(roots[i][k])
    ensures forall i :: 0 <= i < |roots| ==> roots[i] + ["src"] in fs.paths
  {
    var pending: set<Path> := {root};
    var visited: set<Path> := {};
    roots := [];
    WalkStart(fs, root, excluded);
    while pending != {}
      invariant WalkInvariant(fs, root, excluded, pending, visited, roots)
      decreases |fs.paths - visited|
    {
      var p :| p in pending;
      WalkStep(fs, root, excluded, pending, visited, roots, p);
      pending, visited, roots := NextPending(fs, excluded, pending, p), visited + {p}, NextRoots(fs, excluded, roots, p);
    }
    WalkDone(fs, root, excluded, visited, roots);
  }
}
