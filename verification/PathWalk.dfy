/**
 The directory walk behind the path search, and the cache that may answer for it.
 Paths are sequences of names below the search root.
 */
module PathWalk {
  import opened Sorting
  import opened Wrappers

  type Path = seq<string>

  /** A plain directory tree: no symbolic links, nothing changes while it is walked. */
  datatype Dir = Dir(name: string, files: seq<string>, dirs: seq<Dir>)

  const PRUNED: set<string> := {".git", ".mypy_cache", ".pytest_cache", ".venv", "__pycache__", "node_modules", "target"}

  lemma {:induction false} PrunedNames(name: string)
    ensures name in PRUNED <==>
            name == ".git" || name == ".mypy_cache" || name == ".pytest_cache" || name == ".venv" ||
            name == "__pycache__" || name == "node_modules" || name == "target"
  {
  }

  /** Directories at the depth limit are listed but not opened. */
  predicate Opened(depth: nat, maxdepth: Option<nat>) {
    maxdepth.None? || depth < maxdepth.value
  }

  function FilesIn(files: seq<string>, at: Path): (r: seq<Path>)
    ensures |r| == |files| && forall i :: 0 <= i < |r| ==> r[i] == at + [files[i]]
  {
    if files == [] then [] else [at + [files[0]]] + FilesIn(files[1..], at)
  }

  /** What one step of the walk lists: the directory itself from `mindepth` on, and its files if it is opened. */
  function Listed(dir: Dir, at: Path, mindepth: nat, maxdepth: Option<nat>): seq<Path> {
    (if |at| >= mindepth then [at] else []) +
    (if Opened(|at|, maxdepth) then FilesIn(dir.files, at) else [])
  }

  function Walk(dir: Dir, at: Path, mindepth: nat, maxdepth: Option<nat>): seq<Path>
    decreases dir, 1
  {
    Listed(dir, at, mindepth, maxdepth) +
    if Opened(|at|, maxdepth) then WalkAll(dir.dirs, at, mindepth, maxdepth) else []
  }

  function WalkAll(dirs: seq<Dir>, at: Path, mindepth: nat, maxdepth: Option<nat>): seq<Path>
    decreases dirs, 0
  {
    if dirs == [] then []
    else
      (if dirs[0].name in PRUNED then [] else Walk(dirs[0], at + [dirs[0].name], mindepth, maxdepth)) +
      WalkAll(dirs[1..], at, mindepth, maxdepth)
  }

  /** The walk of a search root, in alphabetical order. */
  function SortedWalk(root: Dir, mindepth: nat, maxdepth: Option<nat>): seq<Path> {
    Sort(Walk(root, [], mindepth, maxdepth), PathLeq)
  }

  // ---------------------------------------------------------------------------
  // The walk as a loop over the directories still to visit.

  datatype Visit = Visit(dir: Dir, at: Path)

  function Kept(dirs: seq<Dir>, at: Path): (r: seq<Visit>) {
    if dirs == [] then []
    else
      (if dirs[0].name in PRUNED then [] else [Visit(dirs[0], at + [dirs[0].name])]) + Kept(dirs[1..], at)
  }

  function WalkPending(pending: seq<Visit>, mindepth: nat, maxdepth: Option<nat>): seq<Path> {
    if pending == [] then []
    else Walk(pending[0].dir, pending[0].at, mindepth, maxdepth) + WalkPending(pending[1..], mindepth, maxdepth)
  }

  function Size(dir: Dir): nat
    decreases dir, 1
  {
    1 + SizeAll(dir.dirs)
  }

  function SizeAll(dirs: seq<Dir>): nat
    decreases dirs, 0
  {
    if dirs == [] then 0 else Size(dirs[0]) + SizeAll(dirs[1..])
  }

  function PendingSize(pending: seq<Visit>): nat {
    if pending == [] then 0 else Size(pending[0].dir) + PendingSize(pending[1..])
  }

  lemma {:induction false} WalkPendingOfConcat(p: seq<Visit>, q: seq<Visit>, mindepth: nat, maxdepth: Option<nat>)
    ensures WalkPending(p + q, mindepth, maxdepth) == WalkPending(p, mindepth, maxdepth) + WalkPending(q, mindepth, maxdepth)
    ensures PendingSize(p + q) == PendingSize(p) + PendingSize(q)
  {
    hide Walk, Size;
    if p == [] {
      assert p + q == q;
    } else {
      assert (p + q)[1..] == p[1..] + q;
      WalkPendingOfConcat(p[1..], q, mindepth, maxdepth);
      Associates(Walk(p[0].dir, p[0].at, mindepth, maxdepth), WalkPending(p[1..], mindepth, maxdepth), WalkPending(q, mindepth, maxdepth));
    }
  }

  lemma {:induction false} KeptCoversChildren(dirs: seq<Dir>, at: Path, mindepth: nat, maxdepth: Option<nat>)
    ensures WalkPending(Kept(dirs, at), mindepth, maxdepth) == WalkAll(dirs, at, mindepth, maxdepth)
    ensures PendingSize(Kept(dirs, at)) <= SizeAll(dirs)
    decreases |dirs|
  {
    if dirs != [] {
      KeptCoversChildren(dirs[1..], at, mindepth, maxdepth);
      var rest := Kept(dirs[1..], at);
      if dirs[0].name in PRUNED {
        assert Kept(dirs, at) == rest;
        assert WalkAll(dirs, at, mindepth, maxdepth) == WalkAll(dirs[1..], at, mindepth, maxdepth);
      } else {
        var kept := [Visit(dirs[0], at + [dirs[0].name])] + rest;
        assert Kept(dirs, at) == kept && kept[1..] == rest;
      }
    }
  }

  /** One visit of the loop: list the directory, then put its kept children in front. */
  lemma {:induction false} VisitStep(visit: Visit, rest: seq<Visit>, mindepth: nat, maxdepth: Option<nat>)
    ensures var next := (if Opened(|visit.at|, maxdepth) then Kept(visit.dir.dirs, visit.at) else []) + rest;
            && WalkPending([visit] + rest, mindepth, maxdepth) ==
               Listed(visit.dir, visit.at, mindepth, maxdepth) + WalkPending(next, mindepth, maxdepth)
            && PendingSize(next) < PendingSize([visit] + rest)
  {
    assert ([visit] + rest)[1..] == rest;
    KeptCoversChildren(visit.dir.dirs, visit.at, mindepth, maxdepth);
    var children := if Opened(|visit.at|, maxdepth) then Kept(visit.dir.dirs, visit.at) else [];
    WalkPendingOfConcat(children, rest, mindepth, maxdepth);
    Associates(Listed(visit.dir, visit.at, mindepth, maxdepth), WalkPending(children, mindepth, maxdepth),
               WalkPending(rest, mindepth, maxdepth));
  }

  lemma {:induction false} NextVisit(all: seq<Path>, before: seq<Path>, pending: seq<Visit>, next: seq<Visit>, mindepth: nat, maxdepth: Option<nat>)
    requires pending != [] && all == before + WalkPending(pending, mindepth, maxdepth)
    requires next == (if Opened(|pending[0].at|, maxdepth) then Kept(pending[0].dir.dirs, pending[0].at) else []) + pending[1..]
    ensures all == before + Listed(pending[0].dir, pending[0].at, mindepth, maxdepth) + WalkPending(next, mindepth, maxdepth)
    ensures PendingSize(next) < PendingSize(pending)
  {
    assert pending == [pending[0]] + pending[1..];
    VisitStep(pending[0], pending[1..], mindepth, maxdepth);
    Associates(before, Listed(pending[0].dir, pending[0].at, mindepth, maxdepth), WalkPending(next, mindepth, maxdepth));
  }

  lemma {:induction false} OneVisit(root: Dir, mindepth: nat, maxdepth: Option<nat>)
    ensures Walk(root, [], mindepth, maxdepth) == WalkPending([Visit(root, [])], mindepth, maxdepth)
  {
    assert [Visit(root, [])][1..] == [];
  }

  lemma {:induction false} NothingPending(mindepth: nat, maxdepth: Option<nat>)
    ensures WalkPending([], mindepth, maxdepth) == []
  {
  }

  /** Visits directories top down, dropping pruned ones and not descending below the depth limit, and sorts what was listed. */
  method WalkPaths(root: Dir, mindepth: nat, maxdepth: Option<nat>) returns (sorted: seq<Path>)
    ensures sorted == SortedWalk(root, mindepth, maxdepth)
    ensures SortedBy(sorted, PathLeq) && multiset(sorted) == multiset(Walk(root, [], mindepth, maxdepth))
  {
    var paths: seq<Path> := [];
    var pending := [Visit(root, [])];
    ghost var all := WalkPending(pending, mindepth, maxdepth);
    OneVisit(root, mindepth, maxdepth);
    hide WalkPending, Sort, SortedWalk, Walk, PendingSize;
    while pending != []
      invariant all == paths + WalkPending(pending, mindepth, maxdepth)
      decreases PendingSize(pending)
    {
      var dir, at, depth := pending[0].dir, pending[0].at, |pending[0].at|;
      ghost var before, was := paths, pending;
      if depth >= mindepth {
        paths := paths + [at];
      }
      if !Opened(depth, maxdepth) {
        pending := [] + pending[1..];
      } else {
        paths := paths + FilesIn(dir.files, at);
        pending := Kept(dir.dirs, at) + pending[1..];
      }
      assert paths == before + Listed(dir, at, mindepth, maxdepth);
      NextVisit(all, before, was, pending, mindepth, maxdepth);
    }
    NothingPending(mindepth, maxdepth);
    assert paths == all;
    hide *;
    sorted := Sort(paths, PathLeq);
    WalkIsSorted(root, mindepth, maxdepth);
  }

  lemma {:induction false} WalkIsSorted(root: Dir, mindepth: nat, maxdepth: Option<nat>)
    ensures SortedWalk(root, mindepth, maxdepth) == Sort(Walk(root, [], mindepth, maxdepth), PathLeq)
    ensures SortedBy(SortedWalk(root, mindepth, maxdepth), PathLeq)
    ensures multiset(SortedWalk(root, mindepth, maxdepth)) == multiset(Walk(root, [], mindepth, maxdepth))
  {
    hide Sort, Walk, SortedBy, IsTotalOrder;
    PathOrderIsTotal();
    SortSorts(Walk(root, [], mindepth, maxdepth), PathLeq);
  }

  // ---------------------------------------------------------------------------
  // Exactness: which paths the walk lists.

  /** `p` leads from `dir` through unpruned subdirectories. */
  ghost predicate ReachesDir(dir: Dir, p: Path)
    decreases |p|
  {
    p == [] || exists i :: 0 <= i < |dir.dirs| && ThroughDir(dir.dirs[i], p)
  }

  ghost predicate ThroughDir(child: Dir, p: Path)
    decreases |p|, 0
  {
    p != [] && child.name == p[0] && child.name !in PRUNED && ReachesDir(child, p[1..])
  }

  ghost predicate ReachesFile(dir: Dir, p: Path)
    decreases |p|
  {
    p != [] && ((|p| == 1 && p[0] in dir.files) || exists i :: 0 <= i < |dir.dirs| && ThroughFile(dir.dirs[i], p))
  }

  ghost predicate ThroughFile(child: Dir, p: Path)
    decreases |p|, 0
  {
    p != [] && child.name == p[0] && child.name !in PRUNED && ReachesFile(child, p[1..])
  }

  ghost predicate WithinDepth(n: nat, maxdepth: Option<nat>) {
    maxdepth.None? || n <= maxdepth.value
  }

  /** What the walk is to list below `at`, as a condition on a single path. */
  ghost predicate ToList(dir: Dir, at: Path, p: Path, mindepth: nat, maxdepth: Option<nat>) {
    WithinDepth(|at| + |p|, maxdepth) &&
    ((ReachesDir(dir, p) && mindepth <= |at| + |p|) || ReachesFile(dir, p))
  }

  ghost predicate ToListBelow(child: Dir, at: Path, p: Path, mindepth: nat, maxdepth: Option<nat>) {
    p != [] && child.name == p[0] && child.name !in PRUNED && ToList(child, at + [p[0]], p[1..], mindepth, maxdepth)
  }

  lemma {:induction false} WalkLists(dir: Dir, at: Path, p: Path, mindepth: nat, maxdepth: Option<nat>)
    requires WithinDepth(|at|, maxdepth)
    ensures at + p in Walk(dir, at, mindepth, maxdepth) <==> ToList(dir, at, p, mindepth, maxdepth)
    decreases dir, 1
  {
    if Opened(|at|, maxdepth) {
      WalkAllLists(dir.dirs, at, p, mindepth, maxdepth);
    }
    ListedHere(dir, at, p, mindepth, maxdepth);
    ToListSplits(dir, at, p, mindepth, maxdepth);
  }

  lemma {:induction false} ListedHere(dir: Dir, at: Path, p: Path, mindepth: nat, maxdepth: Option<nat>)
    ensures at + p in Listed(dir, at, mindepth, maxdepth) <==>
            (p == [] && mindepth <= |at|) || (Opened(|at|, maxdepth) && |p| == 1 && p[0] in dir.files)
  {
    var files := FilesIn(dir.files, at);
    if p == [] {
      assert at + p == at;
      assert forall i :: 0 <= i < |files| ==> |files[i]| == |at| + 1;
    } else {
      assert |at + p| != |at|;
      if at + p in files {
        var i :| 0 <= i < |files| && files[i] == at + p;
        assert (at + p)[|at|..] == p && (at + [dir.files[i]])[|at|..] == [dir.files[i]];
      }
      if |p| == 1 && p[0] in dir.files {
        var i :| 0 <= i < |dir.files| && dir.files[i] == p[0];
        assert p == [p[0]];
        assert files[i] == at + p;
      }
    }
  }

  lemma {:induction false} ToListSplits(dir: Dir, at: Path, p: Path, mindepth: nat, maxdepth: Option<nat>)
    requires WithinDepth(|at|, maxdepth)
    ensures ToList(dir, at, p, mindepth, maxdepth) <==>
            (p == [] && mindepth <= |at|) || (Opened(|at|, maxdepth) && |p| == 1 && p[0] in dir.files) ||
            (Opened(|at|, maxdepth) && exists i :: 0 <= i < |dir.dirs| && ToListBelow(dir.dirs[i], at, p, mindepth, maxdepth))
  {
    if p == [] {
    } else {
      var below := exists i :: 0 <= i < |dir.dirs| && ToListBelow(dir.dirs[i], at, p, mindepth, maxdepth);
      if below {
        var i :| 0 <= i < |dir.dirs| && ToListBelow(dir.dirs[i], at, p, mindepth, maxdepth);
        assert ToList(dir.dirs[i], at + [p[0]], p[1..], mindepth, maxdepth);
        if ReachesFile(dir.dirs[i], p[1..]) {
          assert ThroughFile(dir.dirs[i], p);
        } else {
          assert ThroughDir(dir.dirs[i], p);
        }
      } else if WithinDepth(|at| + |p|, maxdepth) {
        forall i | 0 <= i < |dir.dirs| ensures !(ThroughDir(dir.dirs[i], p) && mindepth <= |at| + |p|) && !ThroughFile(dir.dirs[i], p) {
          assert !ToListBelow(dir.dirs[i], at, p, mindepth, maxdepth);
        }
      }
    }
  }

  lemma {:induction false} ChildLists(child: Dir, at: Path, p: Path, mindepth: nat, maxdepth: Option<nat>)
    requires Opened(|at|, maxdepth) && child.name !in PRUNED
    ensures at + p in Walk(child, at + [child.name], mindepth, maxdepth) <==> ToListBelow(child, at, p, mindepth, maxdepth)
    decreases child, 2
  {
    hide Walk, ToList;
    if p != [] && p[0] == child.name {
      WalkLists(child, at + [child.name], p[1..], mindepth, maxdepth);
      assert at + p == (at + [child.name]) + p[1..];
    } else if at + p in Walk(child, at + [child.name], mindepth, maxdepth) {
      StaysBelow(child, at + [child.name], mindepth, maxdepth);
      FirstName(at, child.name, p);
    }
  }

  lemma {:induction false} WalkAllLists(dirs: seq<Dir>, at: Path, p: Path, mindepth: nat, maxdepth: Option<nat>)
    requires Opened(|at|, maxdepth)
    ensures at + p in WalkAll(dirs, at, mindepth, maxdepth) <==>
            exists i :: 0 <= i < |dirs| && ToListBelow(dirs[i], at, p, mindepth, maxdepth)
    decreases dirs, 0
  {
    if dirs != [] {
      WalkAllLists(dirs[1..], at, p, mindepth, maxdepth);
      assert forall i :: 0 <= i < |dirs[1..]| ==> dirs[1..][i] == dirs[i + 1];
      if dirs[0].name !in PRUNED {
        ChildLists(dirs[0], at, p, mindepth, maxdepth);
      }
    }
  }

  lemma {:induction false} FirstName(at: Path, name: string, p: Path)
    requires at + [name] <= at + p
    ensures p != [] && p[0] == name
  {
    assert (at + p)[|at|] == (at + [name])[|at|];
  }

  /** Everything listed under a directory has the directory's path as a prefix. */
  lemma {:induction false} StaysBelow(dir: Dir, at: Path, mindepth: nat, maxdepth: Option<nat>)
    ensures forall q :: q in Walk(dir, at, mindepth, maxdepth) ==> at <= q
    decreases dir, 1
  {
    StaysBelowAll(dir.dirs, at, mindepth, maxdepth);
  }

  lemma {:induction false} StaysBelowAll(dirs: seq<Dir>, at: Path, mindepth: nat, maxdepth: Option<nat>)
    ensures forall q :: q in WalkAll(dirs, at, mindepth, maxdepth) ==> at <= q
    decreases dirs, 0
  {
    if dirs != [] {
      StaysBelowAll(dirs[1..], at, mindepth, maxdepth);
      StaysBelow(dirs[0], at + [dirs[0].name], mindepth, maxdepth);
    }
  }

  /**
   The walk is exact: it lists the unpruned directories between the depth limits and the
   files down to `maxdepth`; `mindepth` does not apply to files.
   */
  lemma {:induction false} WalkIsExact(root: Dir, p: Path, mindepth: nat, maxdepth: Option<nat>)
    ensures p in SortedWalk(root, mindepth, maxdepth) <==> p in Walk(root, [], mindepth, maxdepth)
    ensures p in Walk(root, [], mindepth, maxdepth) <==>
            WithinDepth(|p|, maxdepth) && ((ReachesDir(root, p) && mindepth <= |p|) || ReachesFile(root, p))
  {
    hide Sort, Walk, ReachesDir, ReachesFile;
    PathOrderIsTotal();
    SortMembers(Walk(root, [], mindepth, maxdepth), PathLeq, p);
    WalkLists(root, [], p, mindepth, maxdepth);
    assert [] + p == p;
  }

  // ---------------------------------------------------------------------------
  // Every path once.

  ghost predicate NoRepeats<T>(s: seq<T>) {
    forall i, j :: 0 <= i < j < |s| ==> s[i] != s[j]
  }

  /** As in any real directory, no two entries have the same name. */
  ghost predicate DistinctNames(dir: Dir)
    decreases dir, 1
  {
    && NoRepeats(dir.files)
    && (forall i :: 0 <= i < |dir.dirs| ==> dir.dirs[i].name !in dir.files)
    && DistinctBelow(dir.dirs)
  }

  ghost predicate DistinctBelow(dirs: seq<Dir>)
    decreases dirs, 0
  {
    dirs == [] ||
    (DistinctNames(dirs[0]) && DistinctBelow(dirs[1..]) && forall i :: 0 < i < |dirs| ==> dirs[i].name != dirs[0].name)
  }

  lemma {:induction false} NoRepeatsInConcat<T>(a: seq<T>, b: seq<T>)
    requires NoRepeats(a) && NoRepeats(b) && forall x :: x in a ==> x !in b
    ensures NoRepeats(a + b)
  {
    forall i, j | 0 <= i < j < |a + b| ensures (a + b)[i] != (a + b)[j] {
      if i < |a| <= j {
        assert a[i] in a && b[j - |a|] in b;
      }
    }
  }

  lemma {:induction false} ListedOnce(dir: Dir, at: Path, mindepth: nat, maxdepth: Option<nat>)
    requires NoRepeats(dir.files)
    ensures NoRepeats(Listed(dir, at, mindepth, maxdepth))
  {
    var files := FilesIn(dir.files, at);
    forall i, j | 0 <= i < j < |files| ensures files[i] != files[j] {
      assert files[i][|at|] == dir.files[i] && files[j][|at|] == dir.files[j];
    }
    NoRepeatsInConcat(if |at| >= mindepth then [at] else [], if Opened(|at|, maxdepth) then files else []);
  }

  /** What is listed under the subdirectories starts with one of their names. */
  lemma {:induction false} BelowSome(dirs: seq<Dir>, at: Path, mindepth: nat, maxdepth: Option<nat>, q: Path) returns (i: nat)
    requires q in WalkAll(dirs, at, mindepth, maxdepth)
    ensures i < |dirs| && at + [dirs[i].name] <= q
    decreases |dirs|
  {
    hide Walk;
    var child := dirs[0];
    if child.name !in PRUNED && q in Walk(child, at + [child.name], mindepth, maxdepth) {
      StaysBelow(child, at + [child.name], mindepth, maxdepth);
      i := 0;
    } else {
      i := BelowSome(dirs[1..], at, mindepth, maxdepth, q);
      i := i + 1;
    }
  }

  lemma {:induction false} WalksOnce(dir: Dir, at: Path, mindepth: nat, maxdepth: Option<nat>)
    requires DistinctNames(dir)
    ensures NoRepeats(Walk(dir, at, mindepth, maxdepth))
    decreases dir, 1
  {
    hide Listed, WalkAll, NoRepeats;
    ListedOnce(dir, at, mindepth, maxdepth);
    if Opened(|at|, maxdepth) {
      var listed, below := Listed(dir, at, mindepth, maxdepth), WalkAll(dir.dirs, at, mindepth, maxdepth);
      WalksAllOnce(dir.dirs, at, mindepth, maxdepth);
      forall q | q in listed ensures q !in below {
        if q in below {
          var i := BelowSome(dir.dirs, at, mindepth, maxdepth, q);
          NotListedHere(dir, at, mindepth, maxdepth, dir.dirs[i].name, q);
        }
      }
      NoRepeatsInConcat(listed, below);
    } else {
      assert Listed(dir, at, mindepth, maxdepth) + [] == Listed(dir, at, mindepth, maxdepth);
    }
  }

  lemma {:induction false} NotListedHere(dir: Dir, at: Path, mindepth: nat, maxdepth: Option<nat>, name: string, q: Path)
    requires name !in dir.files && at + [name] <= q
    ensures q !in Listed(dir, at, mindepth, maxdepth)
  {
    assert q[|at|] == (at + [name])[|at|];
    forall i | 0 <= i < |dir.files| ensures FilesIn(dir.files, at)[i] != q {
      assert FilesIn(dir.files, at)[i][|at|] == dir.files[i];
    }
  }

  lemma {:induction false} WalksAllOnce(dirs: seq<Dir>, at: Path, mindepth: nat, maxdepth: Option<nat>)
    requires DistinctBelow(dirs)
    ensures NoRepeats(WalkAll(dirs, at, mindepth, maxdepth))
    decreases dirs, 0
  {
    hide Walk, NoRepeats, DistinctNames;
    if dirs == [] {
      NothingRepeats<Path>();
    } else {
      var child, rest := dirs[0], WalkAll(dirs[1..], at, mindepth, maxdepth);
      WalksAllOnce(dirs[1..], at, mindepth, maxdepth);
      if child.name in PRUNED {
        assert WalkAll(dirs, at, mindepth, maxdepth) == rest;
      } else {
        var own := Walk(child, at + [child.name], mindepth, maxdepth);
        WalksOnce(child, at + [child.name], mindepth, maxdepth);
        StaysBelow(child, at + [child.name], mindepth, maxdepth);
        forall q | q in own ensures q !in rest {
          if q in rest {
            var i := BelowSome(dirs[1..], at, mindepth, maxdepth, q);
            OneName(at, child.name, dirs[i + 1].name, q);
          }
        }
        NoRepeatsInConcat(own, rest);
      }
    }
  }

  lemma {:induction false} NothingRepeats<T>()
    ensures NoRepeats<T>([])
  {
  }

  lemma {:induction false} OneName(at: Path, a: string, b: string, q: Path)
    requires at + [a] <= q && at + [b] <= q
    ensures a == b
  {
    assert (at + [a])[|at|] == q[|at|] == (at + [b])[|at|];
  }

  lemma {:induction false} OnceEach<T>(s: seq<T>, x: T)
    requires NoRepeats(s)
    ensures multiset(s)[x] == if x in s then 1 else 0
  {
    if s != [] {
      var front, last := s[..|s| - 1], s[|s| - 1];
      OnceEach(front, x);
      assert s == front + [last];
    }
  }

  /** In a tree without equal names every path that is to be listed is listed exactly once. */
  lemma {:induction false} EachPathOnce(root: Dir, p: Path, mindepth: nat, maxdepth: Option<nat>)
    requires DistinctNames(root)
    ensures multiset(SortedWalk(root, mindepth, maxdepth))[p] ==
            if WithinDepth(|p|, maxdepth) && ((ReachesDir(root, p) && mindepth <= |p|) || ReachesFile(root, p)) then 1 else 0
  {
    hide Walk, SortedWalk, ReachesDir, ReachesFile, NoRepeats, DistinctNames;
    WalkIsSorted(root, mindepth, maxdepth);
    WalkIsExact(root, p, mindepth, maxdepth);
    WalksOnce(root, [], mindepth, maxdepth);
    OnceEach(Walk(root, [], mindepth, maxdepth), p);
  }
}
