/** What moveDup does to the target directory: which paths it moves, in what
    order, and under which names. */
module Relocation {
  import opened FsTree
  import opened Results
  import opened FileNames
  import opened Grouping
  import opened Report

  /** The target path as moveDup finds it: absent, occupied by something that is
      not a directory, or a directory holding some names. */
  datatype Target = Missing | NotADirectory | Directory(names: set<string>)

  /** One rename: the file at `from` becomes `<target>/<to>`. */
  datatype Move = Move(from: Path, to: string)

  /** The names in the target once it is known to be (or has been made) a directory. */
  function StartNames(t: Target): set<string>
  {
    if t.Directory? then t.names else {}
  }

  /** `path::filename()`: the last component. */
  function FileName(p: Path): string
  {
    if p == [] then "" else p[|p| - 1]
  }

  /** The members of a group after its original. */
  function Tail(g: seq<Path>): seq<Path>
  {
    if |g| <= 1 then [] else g[1..]
  }

  /** The paths moveDup moves, in the order it moves them, when it visits the
      groups in `order`. */
  function Movers(m: DupMap, order: seq<string>): seq<Path>
  {
    if order == [] then [] else Movers(m, order[..|order| - 1]) + Tail(Group(m, order[|order| - 1]))
  }

  /** The paths that were moved, in order. */
  function Sources(moves: seq<Move>): seq<Path>
  {
    if moves == [] then [] else Sources(moves[..|moves| - 1]) + [moves[|moves| - 1].from]
  }

  /** The names the moves created in the target. */
  function Targets(moves: seq<Move>): set<string>
  {
    if moves == [] then {} else Targets(moves[..|moves| - 1]) + {moves[|moves| - 1].to}
  }

  /** The name rule for one move into a target that holds `names`: keep the file
      name unless it is taken, else insert a random number from
      [MinSuffix, MaxSuffix] before the extension. */
  ghost predicate MoveOk(names: set<string>, mv: Move)
  {
    var fn := FileName(mv.from);
    if fn !in names then mv.to == fn
    else exists n: nat :: MinSuffix <= n <= MaxSuffix && RenamedName(fn, n) == Some(mv.to)
  }

  /** Every move of the sequence follows the name rule, against the names the
      target held just before it. */
  ghost predicate MovesOk(names: set<string>, moves: seq<Move>)
  {
    moves == [] ||
    (MovesOk(names, moves[..|moves| - 1]) &&
     MoveOk(names + Targets(moves[..|moves| - 1]), moves[|moves| - 1]))
  }

  /** No path is held twice, neither within a group nor across groups. */
  ghost predicate DistinctMembers(m: DupMap)
  {
    forall k1, k2, i, j :: k1 in m && k2 in m && 0 <= i < |m[k1]| && 0 <= j < |m[k2]| && m[k1][i] == m[k2][j]
      ==> k1 == k2 && i == j
  }

  /** What Movers holds: each path it lists sits after the original of a visited group. */
  lemma {:induction false} MoversFrom(m: DupMap, order: seq<string>, p: Path)
    requires p in Movers(m, order)
    ensures exists x, i :: 0 <= x < |order| && order[x] in m && 1 <= i < |m[order[x]]| && m[order[x]][i] == p
  {
    var pre, last := order[..|order| - 1], order[|order| - 1];
    if p in Movers(m, pre) {
      MoversFrom(m, pre, p);
      var x, i :| 0 <= x < |pre| && pre[x] in m && 1 <= i < |m[pre[x]]| && m[pre[x]][i] == p;
      assert order[x] == pre[x];
    } else {
      var g := Group(m, last);
      assert p in Tail(g);
      var i :| 0 <= i < |g[1..]| && g[1..][i] == p;
      assert g[i + 1] == p;
    }
  }

  /** ...and every member after an original of a visited group is listed. */
  lemma {:induction false} MoversContain(m: DupMap, order: seq<string>, x: nat, i: nat)
    requires x < |order| && order[x] in m && 1 <= i < |m[order[x]]|
    ensures m[order[x]][i] in Movers(m, order)
  {
    var pre, last := order[..|order| - 1], order[|order| - 1];
    if x < |pre| {
      assert pre[x] == order[x];
      MoversContain(m, pre, x, i);
    } else {
      assert Tail(Group(m, last))[i - 1] == m[order[x]][i];
    }
  }

  /** moveDup moves exactly the members at index >= 1 of all groups. */
  lemma MoversAreNonOriginals(m: DupMap, order: seq<string>, p: Path)
    requires Enumerates(order, m.Keys)
    ensures p in Movers(m, order) <==> exists k, i :: k in m && 1 <= i < |m[k]| && m[k][i] == p
  {
    if p in Movers(m, order) {
      MoversFrom(m, order, p);
    }
    if exists k, i :: k in m && 1 <= i < |m[k]| && m[k][i] == p {
      var k, i :| k in m && 1 <= i < |m[k]| && m[k][i] == p;
      var x :| 0 <= x < |order| && order[x] == k;
      MoversContain(m, order, x, i);
    }
  }

  /** The original of a group is never moved, when no path is held twice. */
  lemma OriginalNeverMoved(m: DupMap, order: seq<string>, k: string)
    requires DistinctMembers(m)
    requires k in m && |m[k]| > 0
    ensures m[k][0] !in Movers(m, order)
  {
    if m[k][0] in Movers(m, order) {
      MoversFrom(m, order, m[k][0]);
    }
  }

  /** Each duplicate is moved exactly once: Movers repeats no path, when no path is
      held twice and the order repeats no key. */
  lemma {:induction false} MoversDistinct(m: DupMap, order: seq<string>)
    requires DistinctMembers(m)
    requires forall a, b :: 0 <= a < b < |order| ==> order[a] != order[b]
    ensures forall a, b :: 0 <= a < b < |Movers(m, order)| ==> Movers(m, order)[a] != Movers(m, order)[b]
  {
    if order != [] {
      var pre, last := order[..|order| - 1], order[|order| - 1];
      MoversDistinct(m, pre);
      var s, t := Movers(m, pre), Tail(Group(m, last));
      assert forall x :: 0 <= x < |pre| ==> pre[x] == order[x];
      forall a, b | 0 <= a < b < |s + t| ensures (s + t)[a] != (s + t)[b] {
        if b < |s| {
        } else if a < |s| {
          assert t[b - |s|] == m[last][b - |s| + 1];
          if s[a] == t[b - |s|] {
            MoversFrom(m, pre, s[a]);
          }
        } else {
          assert t[a - |s|] == m[last][a - |s| + 1];
          assert t[b - |s|] == m[last][b - |s| + 1];
        }
      }
    }
  }

  lemma {:induction false} SourcesLength(moves: seq<Move>)
    ensures |Sources(moves)| == |moves|
    ensures forall i :: 0 <= i < |moves| ==> Sources(moves)[i] == moves[i].from
  {
    if moves != [] {
      SourcesLength(moves[..|moves| - 1]);
    }
  }

  /** A move that keeps its name leaves the name as it was; a renamed one keeps
      its extension and gains only digits in its stem. */
  lemma MoveKeepsExtension(names: set<string>, mv: Move)
    requires MoveOk(names, mv)
    ensures FileName(mv.from) !in names ==> mv.to == FileName(mv.from)
    ensures FileName(mv.from) in names ==>
      exists n: nat :: MinSuffix <= n <= MaxSuffix &&
        SplitExt(mv.to) == Some((SplitExt(FileName(mv.from)).value.0 + Decimal(n), SplitExt(FileName(mv.from)).value.1))
  {
    var fn := FileName(mv.from);
    if fn in names {
      var n: nat :| MinSuffix <= n <= MaxSuffix && RenamedName(fn, n) == Some(mv.to);
      RenamedKeepsExtension(fn, n);
    }
  }

  /** Over files with distinct paths, the paths with one digest repeat nothing. */
  lemma {:induction false} WithDigestDistinct(files: seq<FileAt>, k: string, sha: Sha256)
    requires DistinctPaths(files)
    ensures forall a, b :: 0 <= a < b < |WithDigest(files, k, sha)| ==>
      WithDigest(files, k, sha)[a] != WithDigest(files, k, sha)[b]
    decreases |files|
  {
    if files != [] {
      var rest := files[1..];
      assert forall i :: 0 <= i < |rest| ==> rest[i] == files[i + 1];
      WithDigestDistinct(rest, k, sha);
      WithDigestMembers(rest, k, sha, files[0].path);
      forall i | 0 <= i < |rest| ensures rest[i].path != files[0].path {
        assert files[i + 1].path != files[0].path;
      }
      var head := if FileDigest(files[0], sha) == k then [files[0].path] else [];
      ConsDistinct(head, WithDigest(rest, k, sha));
    }
  }

  lemma ConsDistinct(head: seq<Path>, rest: seq<Path>)
    requires |head| <= 1 && (head != [] ==> head[0] !in rest)
    requires forall a, b :: 0 <= a < b < |rest| ==> rest[a] != rest[b]
    ensures forall a, b :: 0 <= a < b < |head + rest| ==> (head + rest)[a] != (head + rest)[b]
  {
    forall a, b | 0 <= a < b < |head + rest| ensures (head + rest)[a] != (head + rest)[b] {
      if head == [] {
        assert head + rest == rest;
      } else {
        assert (head + rest)[b] == rest[b - 1];
        if a > 0 {
          assert (head + rest)[a] == rest[a - 1];
        }
      }
    }
  }

  /** A completed scan from an empty map over files with distinct paths holds no path twice. */
  lemma CompletedDistinctMembers(files: seq<FileAt>, sha: Sha256)
    requires Absorb(map[], files, sha).Completed?
    requires DistinctPaths(files)
    ensures DistinctMembers(Absorb(map[], files, sha).groups)
  {
    var m' := Absorb(map[], files, sha).groups;
    AbsorbGroups(map[], files, sha);
    forall k1, k2, i, j | k1 in m' && k2 in m' && 0 <= i < |m'[k1]| && 0 <= j < |m'[k2]| && m'[k1][i] == m'[k2][j]
      ensures k1 == k2 && i == j
    {
      assert Group(m', k1) == WithDigest(files, k1, sha);
      assert Group(m', k2) == WithDigest(files, k2, sha);
      var p := m'[k1][i];
      assert p in m'[k1] && p in m'[k2];
      WithDigestMembers(files, k1, sha, p);
      WithDigestMembers(files, k2, sha, p);
      var a :| 0 <= a < |files| && files[a].path == p && FileDigest(files[a], sha) == k1;
      var b :| 0 <= b < |files| && files[b].path == p && FileDigest(files[b], sha) == k2;
      assert a == b;
      WithDigestDistinct(files, k1, sha);
    }
  }

  /** A scan from an empty map over files with distinct paths holds no path twice,
      whether it completed or stopped at an unreadable file. */
  lemma AbsorbDistinctMembers(files: seq<FileAt>, sha: Sha256)
    requires DistinctPaths(files)
    ensures DistinctMembers(Absorb(map[], files, sha).groups)
  {
    var n := FirstUnreadable(files);
    AbsorbStopsAtFirstUnreadable(map[], files, sha);
    PrefixDistinct(files, n);
    CompletedDistinctMembers(files[..n], sha);
  }

  /** End to end: whatever listDup returned, on the map that one walk from an empty
      map leaves, over a tree in which no directory holds two entries of the same
      name, moveDup never moves an original and moves every duplicate exactly once. */
  lemma ScanMovesEachDuplicateOnce(root: Path, es: seq<Entry>, d: int, sha: Sha256, m: DupMap, order: seq<string>)
    requires UniqueNames(es)
    requires m == Absorb(map[], Scan([Pending(root, es)], d), sha).groups
    requires Enumerates(order, m.Keys)
    ensures forall k :: k in m ==> |m[k]| > 0 && m[k][0] !in Movers(m, order)
    ensures forall a, b :: 0 <= a < b < |Movers(m, order)| ==> Movers(m, order)[a] != Movers(m, order)[b]
  {
    ScanDistinctPaths(root, es, d);
    AbsorbDistinctMembers(Scan([Pending(root, es)], d), sha);
    AbsorbKeepsWellKeyed(map[], Scan([Pending(root, es)], d), sha);
    forall k | k in m ensures |m[k]| > 0 && m[k][0] !in Movers(m, order) {
      OriginalNeverMoved(m, order, k);
    }
    MoversDistinct(m, order);
  }
}
