/** An abstract snapshot of the directory tree that the duplicate finder walks,
    and the level-order enumeration of its regular files. */
module FsTree {

  type Byte = x: int | 0 <= x < 256

  /** A filesystem path as its sequence of components. */
  type Path = seq<string>

  /** A directory entry: a regular file (its bytes, and whether it can be
      opened for reading) or a directory with its entries in iteration order. */
  datatype Entry =
    | File(name: string, content: seq<Byte>, openable: bool)
    | Dir(name: string, children: seq<Entry>)

  /** A directory waiting in a traversal queue: its path and its entries. */
  datatype Pending = Pending(path: Path, entries: seq<Entry>)

  /** A regular file as the traversal discovers it. */
  datatype FileAt = FileAt(path: Path, content: seq<Byte>, openable: bool)

  function EntrySize(e: Entry): nat
  {
    match e
    case File(_, _, _) => 1
    case Dir(_, ch) => 1 + EntriesSize(ch)
  }

  function EntriesSize(es: seq<Entry>): nat
  {
    if es == [] then 0 else EntriesSize(es[..|es| - 1]) + EntrySize(es[|es| - 1])
  }

  /** Dropping the last entry, or descending into it, makes the tree smaller. */
  lemma LastEntrySmaller(es: seq<Entry>)
    requires es != []
    ensures EntriesSize(es[..|es| - 1]) < EntriesSize(es)
    ensures es[|es| - 1].Dir? ==> EntriesSize(es[|es| - 1].children) < EntriesSize(es)
  {
  }

  /** Number of entries in the subtrees still waiting in a queue, plus one per queued directory. */
  function QueueSize(q: seq<Pending>): nat
  {
    if q == [] then 0 else QueueSize(q[..|q| - 1]) + 1 + EntriesSize(q[|q| - 1].entries)
  }

  /** The entry as a discovered file, if it is not a directory. */
  function EntryFile(path: Path, e: Entry): seq<FileAt>
  {
    match e
    case File(n, c, o) => [FileAt(path + [n], c, o)]
    case Dir(_, _) => []
  }

  /** The entry as a directory to visit on the next level, if it is one. */
  function EntryDir(path: Path, e: Entry): seq<Pending>
  {
    match e
    case File(_, _, _) => []
    case Dir(n, ch) => [Pending(path + [n], ch)]
  }

  /** The regular files directly inside a directory, in iteration order. */
  function DirFiles(path: Path, es: seq<Entry>): seq<FileAt>
  {
    if es == [] then [] else DirFiles(path, es[..|es| - 1]) + EntryFile(path, es[|es| - 1])
  }

  /** The sub-directories directly inside a directory, in iteration order. */
  function SubDirs(path: Path, es: seq<Entry>): seq<Pending>
  {
    if es == [] then [] else SubDirs(path, es[..|es| - 1]) + EntryDir(path, es[|es| - 1])
  }

  /** The files found while draining one level of the queue, front to back. */
  function LevelFiles(q: seq<Pending>): seq<FileAt>
  {
    if q == [] then [] else LevelFiles(q[..|q| - 1]) + DirFiles(q[|q| - 1].path, q[|q| - 1].entries)
  }

  /** The queue of the next level: the sub-directories of one level, front to back. */
  function NextLevel(q: seq<Pending>): seq<Pending>
  {
    if q == [] then [] else NextLevel(q[..|q| - 1]) + SubDirs(q[|q| - 1].path, q[|q| - 1].entries)
  }

  lemma {:induction false} SubDirsSmaller(path: Path, es: seq<Entry>)
    ensures QueueSize(SubDirs(path, es)) <= EntriesSize(es)
  {
    if es != [] {
      var pre, last := es[..|es| - 1], es[|es| - 1];
      SubDirsSmaller(path, pre);
      QueueSizeAppend(SubDirs(path, pre), EntryDir(path, last));
      match last
      case File(_, _, _) =>
      case Dir(n, ch) =>
        assert EntryDir(path, last)[..0] == [];
    }
  }

  lemma {:induction false} QueueSizeAppend(a: seq<Pending>, b: seq<Pending>)
    ensures QueueSize(a + b) == QueueSize(a) + QueueSize(b)
    decreases |b|
  {
    if b == [] {
      EmptyUnit(a);
    } else {
      SnocSplit(a, b);
      QueueSizeAppend(a, b[..|b| - 1]);
    }
  }

  /** Each completed level shrinks what is left to visit, so the walk terminates. */
  lemma {:induction false} NextLevelSmaller(q: seq<Pending>)
    requires q != []
    ensures QueueSize(NextLevel(q)) < QueueSize(q)
    decreases |q|
  {
    var pre, last := q[..|q| - 1], q[|q| - 1];
    SubDirsSmaller(last.path, last.entries);
    QueueSizeAppend(NextLevel(pre), SubDirs(last.path, last.entries));
    if pre != [] {
      NextLevelSmaller(pre);
    }
  }

  /** The files a level-order walk hashes, in order, starting from queue `q` with a
      remaining-depth counter `depth`: the walk stops when the queue is empty or the
      counter reaches zero (a negative counter never does). */
  function Scan(q: seq<Pending>, depth: int): seq<FileAt>
    decreases QueueSize(q)
  {
    if q == [] || depth == 0 then []
    else
      NextLevelSmaller(q);
      LevelFiles(q) + Scan(NextLevel(q), depth - 1)
  }

  /** The remaining-depth counter the scan starts with. */
  function StartDepth(recursive: bool, maxDepth: int): int
  {
    if recursive then maxDepth else 1
  }

  // ---------------------------------------------------------------------------
  // An independent, depth-first reference: the files exactly k levels below a
  // directory (k == 0: its direct children).
  // ---------------------------------------------------------------------------

  function FilesAtDepth(path: Path, es: seq<Entry>, k: nat): seq<FileAt>
    decreases EntriesSize(es), 1
  {
    if es == [] then []
    else
      LastEntrySmaller(es);
      FilesAtDepth(path, es[..|es| - 1], k) + EntryAtDepth(path, es[|es| - 1], k)
  }

  /** The files exactly k levels below `path` that come from entry `e`. */
  function EntryAtDepth(path: Path, e: Entry, k: nat): seq<FileAt>
    decreases EntrySize(e), 0
  {
    match e
    case File(n, c, o) => if k == 0 then [FileAt(path + [n], c, o)] else []
    case Dir(n, ch) => if k == 0 then [] else FilesAtDepth(path + [n], ch, k - 1)
  }

  /** The files exactly k levels below each queued directory, queue order. */
  function FilesAt(q: seq<Pending>, k: nat): seq<FileAt>
  {
    if q == [] then [] else FilesAt(q[..|q| - 1], k) + FilesAtDepth(q[|q| - 1].path, q[|q| - 1].entries, k)
  }

  /** The files of the first d levels, shallower levels first. */
  function DepthPrefix(q: seq<Pending>, d: nat): seq<FileAt>
  {
    if d == 0 then [] else DepthPrefix(q, d - 1) + FilesAt(q, d - 1)
  }

  lemma {:induction false} FilesAtAppend(a: seq<Pending>, b: seq<Pending>, k: nat)
    ensures FilesAt(a + b, k) == FilesAt(a, k) + FilesAt(b, k)
    decreases |b|
  {
    if b == [] {
      EmptyUnit(a);
      EmptyUnit(FilesAt(a, k));
    } else {
      var b', x := b[..|b| - 1], b[|b| - 1];
      SnocSplit(a, b);
      FilesAtAppend(a, b', k);
      Assoc(FilesAt(a, k), FilesAt(b', k), FilesAtDepth(x.path, x.entries, k));
    }
  }

  lemma {:induction false} DirFilesAreDepthZero(path: Path, es: seq<Entry>)
    ensures DirFiles(path, es) == FilesAtDepth(path, es, 0)
    decreases |es|
  {
    if es != [] {
      DirFilesAreDepthZero(path, es[..|es| - 1]);
    }
  }

  lemma {:induction false} LevelFilesAreDepthZero(q: seq<Pending>)
    ensures LevelFiles(q) == FilesAt(q, 0)
    decreases |q|
  {
    if q != [] {
      LevelFilesAreDepthZero(q[..|q| - 1]);
      DirFilesAreDepthZero(q[|q| - 1].path, q[|q| - 1].entries);
    }
  }

  lemma {:induction false} DeeperIsSubDirs(path: Path, es: seq<Entry>, k: nat)
    ensures FilesAtDepth(path, es, k + 1) == FilesAt(SubDirs(path, es), k)
    decreases |es|
  {
    if es != [] {
      var pre, last := es[..|es| - 1], es[|es| - 1];
      DeeperIsSubDirs(path, pre, k);
      FilesAtAppend(SubDirs(path, pre), EntryDir(path, last), k);
      match last
      case File(_, _, _) =>
      case Dir(n, ch) =>
        assert EntryDir(path, last)[..0] == [];
    }
  }

  /** Level k + 1 below a queue is level k below its next-level queue. */
  lemma {:induction false} DeeperIsNextLevel(q: seq<Pending>, k: nat)
    ensures FilesAt(q, k + 1) == FilesAt(NextLevel(q), k)
    decreases |q|
  {
    if q != [] {
      var pre, last := q[..|q| - 1], q[|q| - 1];
      DeeperIsNextLevel(pre, k);
      DeeperIsSubDirs(last.path, last.entries, k);
      FilesAtAppend(NextLevel(pre), SubDirs(last.path, last.entries), k);
    }
  }

  lemma {:induction false} DepthPrefixEmpty(d: nat)
    ensures DepthPrefix([], d) == []
  {
    if d > 0 {
      DepthPrefixEmpty(d - 1);
    }
  }

  /** The first d + 1 levels are the queue's own files followed by the first d
      levels of the queue of its subdirectories. */
  lemma DepthPrefixUnfold(q: seq<Pending>, d: nat)
    ensures DepthPrefix(q, d + 1) == FilesAt(q, 0) + DepthPrefix(NextLevel(q), d)
  {
    forall k: nat
      ensures FilesAt(q, k + 1) == FilesAt(NextLevel(q), k)
    {
      DeeperIsNextLevel(q, k);
    }
    ShiftedUnfold(q, NextLevel(q), d);
  }

  /** The same, for any queue `nq` that holds q's levels shifted up by one. */
  lemma {:induction false} ShiftedUnfold(q: seq<Pending>, nq: seq<Pending>, d: nat)
    requires forall k: nat :: FilesAt(q, k + 1) == FilesAt(nq, k)
    ensures DepthPrefix(q, d + 1) == FilesAt(q, 0) + DepthPrefix(nq, d)
  {
    if d == 0 {
      EmptyUnit(FilesAt(q, 0));
    } else {
      ShiftedUnfold(q, nq, d - 1);
      assert FilesAt(q, d) == FilesAt(nq, d - 1);
      Assoc(FilesAt(q, 0), DepthPrefix(nq, d - 1), FilesAt(nq, d - 1));
    }
  }

  /** The empty sequence is a unit of concatenation. */
  lemma EmptyUnit<T>(a: seq<T>)
    ensures [] + a == a && a + [] == a
  {
  }

  /** Dropping the last element of a + b drops it from b. */
  lemma SnocSplit<T>(a: seq<T>, b: seq<T>)
    requires b != []
    ensures (a + b)[..|a + b| - 1] == a + b[..|b| - 1]
    ensures (a + b)[|a + b| - 1] == b[|b| - 1]
  {
  }

  /** Concatenation is associative. */
  lemma Assoc<T>(a: seq<T>, b: seq<T>, c: seq<T>)
    ensures (a + b) + c == a + (b + c)
  {
  }

  /** Level order: the breadth-first walk with a non-negative depth counter d
      yields exactly the files of the first d levels, every file of level N
      before any file of level N + 1. */
  lemma {:induction false} ScanIsDepthPrefix(q: seq<Pending>, d: nat)
    ensures Scan(q, d) == DepthPrefix(q, d)
    decreases QueueSize(q)
  {
    if q == [] {
      DepthPrefixEmpty(d);
    } else if d > 0 {
      NextLevelSmaller(q);
      ScanIsDepthPrefix(NextLevel(q), d - 1);
      LevelFilesAreDepthZero(q);
      DepthPrefixUnfold(q, d - 1);
    }
  }

  /** A negative depth counter never reaches zero: the walk then visits every
      level, exactly as with any counter at least the size of the tree. */
  lemma {:induction false} NegativeDepthIsUnbounded(q: seq<Pending>, d: int, n: nat)
    requires d < 0
    requires n >= QueueSize(q)
    ensures Scan(q, d) == Scan(q, n)
    decreases QueueSize(q)
  {
    if q != [] {
      NextLevelSmaller(q);
      NegativeDepthIsUnbounded(NextLevel(q), d - 1, n - 1);
      ScanStep(q, d);
      ScanStep(q, n);
    }
  }

  /** One level of the walk: the level's files, then the walk one level down. */
  lemma ScanStep(q: seq<Pending>, depth: int)
    requires q != [] && depth != 0
    ensures Scan(q, depth) == LevelFiles(q) + Scan(NextLevel(q), depth - 1)
  {
  }

  /** With the non-recursive counter of 1 only the root's direct children are hashed. */
  lemma NonRecursiveScansChildren(root: Path, es: seq<Entry>)
    ensures Scan([Pending(root, es)], StartDepth(false, 0)) == DirFiles(root, es)
  {
    var q := [Pending(root, es)];
    assert q[..0] == [];
    NextLevelSmaller(q);
    assert Scan(NextLevel(q), 0) == [];
    assert LevelFiles(q) == [] + DirFiles(root, es);
  }

  // ---------------------------------------------------------------------------
  // Shape of the discovered paths.
  // ---------------------------------------------------------------------------

  /** `p` names something strictly inside directory `base`. */
  ghost predicate Below(p: Path, base: Path)
  {
    |p| > |base| && p[..|base|] == base
  }

  /** Every file k levels below `path` has `path` as prefix and k + 1 more components. */
  lemma {:induction false} FilesAtDepthPaths(path: Path, es: seq<Entry>, k: nat)
    ensures forall f :: f in FilesAtDepth(path, es, k) ==>
      |f.path| == |path| + k + 1 && Below(f.path, path)
    decreases EntriesSize(es)
  {
    if es != [] {
      var pre, last := es[..|es| - 1], es[|es| - 1];
      LastEntrySmaller(es);
      FilesAtDepthPaths(path, pre, k);
      match last
      case File(n, c, o) =>
      case Dir(n, ch) =>
        if k > 0 {
          FilesAtDepthPaths(path + [n], ch, k - 1);
          forall f | f in FilesAtDepth(path + [n], ch, k - 1)
            ensures Below(f.path, path)
          {
            assert f.path[..|path|] == f.path[..|path| + 1][..|path|];
          }
        }
    }
  }

  /** All queued directories' paths have length `len`. */
  ghost predicate SameLength(q: seq<Pending>, len: nat)
  {
    forall i :: 0 <= i < |q| ==> |q[i].path| == len
  }

  lemma {:induction false} FilesAtLengths(q: seq<Pending>, len: nat, k: nat)
    requires SameLength(q, len)
    ensures forall f :: f in FilesAt(q, k) ==> |f.path| == len + k + 1
    decreases |q|
  {
    if q != [] {
      var pre, last := q[..|q| - 1], q[|q| - 1];
      FilesAtLengths(pre, len, k);
      FilesAtDepthPaths(last.path, last.entries, k);
    }
  }

  lemma {:induction false} DepthPrefixLengths(q: seq<Pending>, len: nat, d: nat)
    requires SameLength(q, len)
    ensures forall f :: f in DepthPrefix(q, d) ==> len + 1 <= |f.path| <= len + d
    ensures forall i, j :: 0 <= i < j < |DepthPrefix(q, d)| ==>
      |DepthPrefix(q, d)[i].path| <= |DepthPrefix(q, d)[j].path|
  {
    if d > 0 {
      DepthPrefixLengths(q, len, d - 1);
      FilesAtLengths(q, len, d - 1);
      var a: seq<FileAt>, b: seq<FileAt> := DepthPrefix(q, d - 1), FilesAt(q, d - 1);
      forall i, j | 0 <= i < j < |a + b|
        ensures |(a + b)[i].path| <= |(a + b)[j].path|
      {
        if j < |a| {
        } else if i < |a| {
          assert (a + b)[i] in a;
          assert (a + b)[j] in b;
        } else {
          assert (a + b)[i] in b;
          assert (a + b)[j] in b;
        }
      }
    }
  }

  /** Depth bound and level order of the walk from one root: with a counter d > 0
      every hashed file lies at most d levels below the root, and files are
      hashed in non-decreasing depth. */
  lemma ScanDepthBoundAndOrder(root: Path, es: seq<Entry>, d: nat)
    ensures forall f :: f in Scan([Pending(root, es)], d) ==>
      |f.path| <= |root| + d && Below(f.path, root)
    ensures forall i, j :: 0 <= i < j < |Scan([Pending(root, es)], d)| ==>
      |Scan([Pending(root, es)], d)[i].path| <= |Scan([Pending(root, es)], d)[j].path|
  {
    var q := [Pending(root, es)];
    ScanIsDepthPrefix(q, d);
    DepthPrefixLengths(q, |root|, d);
    DepthPrefixPrefixes(q, root, d);
  }

  /** Every queued directory is `root` itself. */
  ghost predicate AllAt(q: seq<Pending>, root: Path)
  {
    forall i :: 0 <= i < |q| ==> q[i].path == root
  }

  lemma {:induction false} FilesAtBelow(q: seq<Pending>, root: Path, k: nat)
    requires AllAt(q, root)
    ensures forall f :: f in FilesAt(q, k) ==> Below(f.path, root)
    decreases |q|
  {
    if q != [] {
      var pre, last := q[..|q| - 1], q[|q| - 1];
      FilesAtBelow(pre, root, k);
      FilesAtDepthPaths(last.path, last.entries, k);
      AllBelowConcat(FilesAt(pre, k), FilesAtDepth(last.path, last.entries, k), root);
    }
  }

  lemma {:induction false} DepthPrefixPrefixes(q: seq<Pending>, root: Path, d: nat)
    requires AllAt(q, root)
    ensures forall f :: f in DepthPrefix(q, d) ==> Below(f.path, root)
  {
    if d > 0 {
      DepthPrefixPrefixes(q, root, d - 1);
      FilesAtBelow(q, root, d - 1);
      AllBelowConcat(DepthPrefix(q, d - 1), FilesAt(q, d - 1), root);
    }
  }

  lemma AllBelowConcat(a: seq<FileAt>, b: seq<FileAt>, root: Path)
    requires forall f :: f in a ==> Below(f.path, root)
    requires forall f :: f in b ==> Below(f.path, root)
    ensures forall f :: f in a + b ==> Below(f.path, root)
  {
  }

  // ---------------------------------------------------------------------------
  // Distinct paths: no directory holds two entries with the same name, so the
  // walk never discovers the same path twice.
  // ---------------------------------------------------------------------------

  /** The names of a directory's entries. */
  function NameSet(es: seq<Entry>): set<string>
  {
    if es == [] then {} else NameSet(es[..|es| - 1]) + {es[|es| - 1].name}
  }

  /** No directory of the tree holds two entries with the same name. */
  ghost predicate UniqueNames(es: seq<Entry>)
    decreases EntriesSize(es)
  {
    if es == [] then true
    else
      LastEntrySmaller(es);
      var pre, last := es[..|es| - 1], es[|es| - 1];
      UniqueNames(pre) && last.name !in NameSet(pre) && (last.Dir? ==> UniqueNames(last.children))
  }

  /** The discovered files have pairwise distinct paths. */
  ghost predicate DistinctPaths(files: seq<FileAt>)
  {
    forall i, j :: 0 <= i < j < |files| ==> files[i].path != files[j].path
  }

  lemma DistinctConcat(a: seq<FileAt>, b: seq<FileAt>)
    requires DistinctPaths(a) && DistinctPaths(b)
    requires forall x, y :: x in a && y in b ==> x.path != y.path
    ensures DistinctPaths(a + b)
  {
    forall i, j | 0 <= i < j < |a + b| ensures (a + b)[i].path != (a + b)[j].path {
      if j < |a| {
        assert (a + b)[i] == a[i] && (a + b)[j] == a[j];
      } else if i < |a| {
        assert (a + b)[i] in a && (a + b)[j] in b;
      } else {
        assert (a + b)[i] == b[i - |a|] && (a + b)[j] == b[j - |a|];
      }
    }
  }

  lemma PrefixDistinct(files: seq<FileAt>, n: nat)
    requires n <= |files| && DistinctPaths(files)
    ensures DistinctPaths(files[..n])
  {
    assert forall i :: 0 <= i < n ==> files[..n][i] == files[i];
  }

  /** Every file that comes from entry `e` has e's name right after `path`. */
  lemma EntryAtDepthNames(path: Path, e: Entry, k: nat)
    ensures forall f :: f in EntryAtDepth(path, e, k) ==> |f.path| > |path| && f.path[|path|] == e.name
  {
    match e
    case File(n, c, o) =>
    case Dir(n, ch) =>
      if k > 0 {
        FilesAtDepthPaths(path + [n], ch, k - 1);
        forall f | f in FilesAtDepth(path + [n], ch, k - 1)
          ensures |f.path| > |path| && f.path[|path|] == n
        {
          assert f.path[..|path| + 1] == path + [n];
          assert f.path[|path|] == f.path[..|path| + 1][|path|];
        }
      }
  }

  /** Every file below a directory continues its path with one of its entries' names. */
  lemma {:induction false} FilesAtDepthNames(path: Path, es: seq<Entry>, k: nat)
    ensures forall f :: f in FilesAtDepth(path, es, k) ==> |f.path| > |path| && f.path[|path|] in NameSet(es)
    decreases |es|
  {
    if es != [] {
      var pre, last := es[..|es| - 1], es[|es| - 1];
      FilesAtDepthNames(path, pre, k);
      EntryAtDepthNames(path, last, k);
    }
  }

  /** In a tree with unique names, the files k levels below a directory have distinct paths. */
  lemma {:induction false} FilesAtDepthDistinct(path: Path, es: seq<Entry>, k: nat)
    requires UniqueNames(es)
    ensures DistinctPaths(FilesAtDepth(path, es, k))
    decreases EntriesSize(es)
  {
    if es != [] {
      var pre, last := es[..|es| - 1], es[|es| - 1];
      LastEntrySmaller(es);
      var a, b := FilesAtDepth(path, pre, k), EntryAtDepth(path, last, k);
      FilesAtDepthDistinct(path, pre, k);
      if last.Dir? && k > 0 {
        FilesAtDepthDistinct(path + [last.name], last.children, k - 1);
      }
      FilesAtDepthNames(path, pre, k);
      EntryAtDepthNames(path, last, k);
      forall x, y | x in a && y in b ensures x.path != y.path {
        assert x.path[|path|] != y.path[|path|];
      }
      DistinctConcat(a, b);
    }
  }

  lemma {:induction false} DepthPrefixDistinct(q: seq<Pending>, len: nat, d: nat)
    requires SameLength(q, len)
    requires forall k: nat :: DistinctPaths(FilesAt(q, k))
    ensures DistinctPaths(DepthPrefix(q, d))
  {
    if d > 0 {
      var a, b := DepthPrefix(q, d - 1), FilesAt(q, d - 1);
      DepthPrefixDistinct(q, len, d - 1);
      DepthPrefixLengths(q, len, d - 1);
      FilesAtLengths(q, len, d - 1);
      assert DistinctPaths(b);
      LengthSeparated(a, b, len + d - 1);
    }
  }

  /** Two lists of distinct paths stay distinct together when every path of
      the first is shorter than every path of the second. */
  lemma LengthSeparated(a: seq<FileAt>, b: seq<FileAt>, n: nat)
    requires DistinctPaths(a) && DistinctPaths(b)
    requires forall x :: x in a ==> |x.path| <= n
    requires forall y :: y in b ==> |y.path| > n
    ensures DistinctPaths(a + b)
  {
    DistinctConcat(a, b);
  }

  /** In a tree with unique names, the walk from the root hashes no path twice,
      whatever the depth counter. */
  lemma ScanDistinctPaths(root: Path, es: seq<Entry>, d: int)
    requires UniqueNames(es)
    ensures DistinctPaths(Scan([Pending(root, es)], d))
  {
    var q := [Pending(root, es)];
    forall k: nat ensures DistinctPaths(FilesAt(q, k)) {
      FilesAtDepthDistinct(root, es, k);
      assert q[..|q| - 1] == [];
      assert FilesAt(q, k) == [] + FilesAtDepth(root, es, k);
      EmptyUnit(FilesAtDepth(root, es, k));
    }
    var n: nat := if d < 0 then QueueSize(q) else d;
    if d < 0 {
      NegativeDepthIsUnbounded(q, d, n);
    }
    ScanIsDepthPrefix(q, n);
    DepthPrefixDistinct(q, |root|, n);
  }
}
