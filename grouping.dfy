/** How the scan grows the duplicate map: each discovered file's path is appended
    to the group keyed by its digest, and the first unreadable file stops the scan. */
module Grouping {
  import opened FsTree
  import opened Hex

  /** Digest string to the ordered paths that produced it (unordered_map<string, vector<path>>). */
  type DupMap = map<string, seq<Path>>

  /** SHA-256 over a file's bytes, left abstract. */
  type Sha256 = seq<Byte> -> Sha256Digest

  /** What CalculateSha returns for a discovered file: "" when it cannot be read,
      otherwise the 64-character hex rendering of the file's SHA-256. */
  function FileDigest(f: FileAt, sha: Sha256): (h: string)
    ensures h == "" <==> !f.openable
    ensures f.openable ==> |h| == 64
  {
    if f.openable then (DigestHexShape(sha(f.content)); HexString(sha(f.content))) else ""
  }

  /** A readable file's key is written in lowercase hex digits only. */
  lemma FileDigestIsHex(f: FileAt, sha: Sha256)
    requires f.openable
    ensures forall i :: 0 <= i < |FileDigest(f, sha)| ==> IsLowerHex(FileDigest(f, sha)[i])
  {
    DigestHexShape(sha(f.content));
  }

  /** Two readable files get the same key exactly when their SHA-256 digests agree. */
  lemma SameKeyIffSameSha(a: FileAt, b: FileAt, sha: Sha256)
    requires a.openable && b.openable
    ensures FileDigest(a, sha) == FileDigest(b, sha) <==> sha(a.content) == sha(b.content)
  {
    HexInjective(sha(a.content), sha(b.content));
  }

  /** The group of a key; `operator[]` on a missing key yields an empty vector. */
  function Group(m: DupMap, k: string): seq<Path>
  {
    if k in m then m[k] else []
  }

  /** `duplist[h].push_back(p)`. */
  function Append(m: DupMap, h: string, p: Path): (m': DupMap)
    ensures m'.Keys == m.Keys + {h}
    ensures Group(m', h) == Group(m, h) + [p]
    ensures forall k :: k != h ==> Group(m', k) == Group(m, k)
  {
    m[h := Group(m, h) + [p]]
  }

  /** The map after absorbing a sequence of discovered files: Completed when every
      file hashed, Aborted (with the files before the failing one absorbed) otherwise. */
  datatype Outcome = Completed(groups: DupMap) | Aborted(groups: DupMap)

  function Absorb(m: DupMap, files: seq<FileAt>, sha: Sha256): Outcome
    decreases |files|
  {
    if files == [] then Completed(m)
    else
      var h := FileDigest(files[0], sha);
      if h == "" then Aborted(m) else Absorb(Append(m, h, files[0].path), files[1..], sha)
  }

  /** The paths of the files whose digest is k, in discovery order. */
  function WithDigest(files: seq<FileAt>, k: string, sha: Sha256): seq<Path>
    decreases |files|
  {
    if files == [] then []
    else (if FileDigest(files[0], sha) == k then [files[0].path] else []) + WithDigest(files[1..], k, sha)
  }

  /** Absorbing a + b is absorbing a, then b unless a already aborted. */
  lemma {:induction false} AbsorbAppend(m: DupMap, a: seq<FileAt>, b: seq<FileAt>, sha: Sha256)
    ensures Absorb(m, a + b, sha) ==
      match Absorb(m, a, sha)
      case Completed(m1) => Absorb(m1, b, sha)
      case Aborted(m1) => Aborted(m1)
    decreases |a|
  {
    if a == [] {
      assert a + b == b;
    } else {
      assert (a + b)[0] == a[0];
      assert (a + b)[1..] == a[1..] + b;
      var h := FileDigest(a[0], sha);
      if h != "" {
        AbsorbAppend(Append(m, h, a[0].path), a[1..], b, sha);
      }
    }
  }

  /** The scan completes exactly when every discovered file could be hashed. */
  lemma {:induction false} AbsorbCompletesIffAllReadable(m: DupMap, files: seq<FileAt>, sha: Sha256)
    ensures Absorb(m, files, sha).Completed? <==> forall i :: 0 <= i < |files| ==> files[i].openable
    decreases |files|
  {
    if files != [] {
      var h := FileDigest(files[0], sha);
      if h != "" {
        AbsorbCompletesIffAllReadable(Append(m, h, files[0].path), files[1..], sha);
        assert forall i :: 1 <= i < |files| ==> files[i] == files[1..][i - 1];
      }
    }
  }

  /** Some discovered file has digest k. */
  ghost predicate HasDigest(files: seq<FileAt>, k: string, sha: Sha256)
  {
    exists i :: 0 <= i < |files| && FileDigest(files[i], sha) == k
  }

  lemma HasDigestCons(files: seq<FileAt>, k: string, sha: Sha256)
    requires files != []
    ensures HasDigest(files, k, sha) <==> FileDigest(files[0], sha) == k || HasDigest(files[1..], k, sha)
  {
    if HasDigest(files, k, sha) {
      var i :| 0 <= i < |files| && FileDigest(files[i], sha) == k;
      if i > 0 {
        assert FileDigest(files[1..][i - 1], sha) == k;
      }
    }
    if HasDigest(files[1..], k, sha) {
      var i :| 0 <= i < |files[1..]| && FileDigest(files[1..][i], sha) == k;
      assert FileDigest(files[i + 1], sha) == k;
    }
  }

  /** Grouping: after a completed scan every group is its old members followed, in
      discovery order, by exactly the discovered files with that digest. */
  lemma {:induction false} AbsorbGroups(m: DupMap, files: seq<FileAt>, sha: Sha256)
    requires Absorb(m, files, sha).Completed?
    ensures forall k :: Group(Absorb(m, files, sha).groups, k) == Group(m, k) + WithDigest(files, k, sha)
    decreases |files|
  {
    if files != [] {
      var h := FileDigest(files[0], sha);
      var m1 := Append(m, h, files[0].path);
      AbsorbGroups(m1, files[1..], sha);
      assert Absorb(m, files, sha) == Absorb(m1, files[1..], sha);
      var m' := Absorb(m, files, sha).groups;
      forall k ensures Group(m', k) == Group(m, k) + WithDigest(files, k, sha) {
        var x: seq<Path> := if h == k then [files[0].path] else [];
        var rest := WithDigest(files[1..], k, sha);
        assert Group(m1, k) == Group(m, k) + x;
        assert WithDigest(files, k, sha) == x + rest;
        Assoc(Group(m, k), x, rest);
      }
    }
  }

  /** The keys after a scan are the old keys and the digests of the absorbed files. */
  lemma {:induction false} AbsorbKeys(m: DupMap, files: seq<FileAt>, sha: Sha256)
    requires Absorb(m, files, sha).Completed?
    ensures forall k :: k in Absorb(m, files, sha).groups <==> k in m || HasDigest(files, k, sha)
    decreases |files|
  {
    if files != [] {
      var h := FileDigest(files[0], sha);
      AbsorbKeys(Append(m, h, files[0].path), files[1..], sha);
      forall k ensures HasDigest(files, k, sha) <==> h == k || HasDigest(files[1..], k, sha) {
        HasDigestCons(files, k, sha);
      }
    }
  }

  /** The index of the first file that cannot be read, or |files| when all can. */
  function FirstUnreadable(files: seq<FileAt>): (i: nat)
    ensures i <= |files|
    ensures forall j :: 0 <= j < i ==> files[j].openable
    ensures i < |files| ==> !files[i].openable
    decreases |files|
  {
    if files == [] then 0
    else if !files[0].openable then 0
    else
      var i := 1 + FirstUnreadable(files[1..]);
      assert forall j :: 1 <= j < i ==> files[j] == files[1..][j - 1];
      i
  }

  /** Hash failure: the scan absorbs exactly the files before the first unreadable
      one (all of them when there is none), and completes exactly when there is none. */
  lemma AbsorbStopsAtFirstUnreadable(m: DupMap, files: seq<FileAt>, sha: Sha256)
    ensures Absorb(m, files[..FirstUnreadable(files)], sha).Completed?
    ensures Absorb(m, files, sha).groups == Absorb(m, files[..FirstUnreadable(files)], sha).groups
    ensures Absorb(m, files, sha).Completed? <==> FirstUnreadable(files) == |files|
  {
    var i := FirstUnreadable(files);
    AbsorbCompletesIffAllReadable(m, files[..i], sha);
    assert files == files[..i] + files[i..];
    AbsorbAppend(m, files[..i], files[i..], sha);
  }

  /** Existing groups are never removed or reordered: each old group is a prefix of
      the new one, whether the scan completed or aborted. */
  lemma GroupsOnlyGrow(m: DupMap, files: seq<FileAt>, sha: Sha256)
    ensures forall k :: k in m ==> (k in Absorb(m, files, sha).groups && m[k] <= Absorb(m, files, sha).groups[k])
  {
    var done := files[..FirstUnreadable(files)];
    AbsorbStopsAtFirstUnreadable(m, files, sha);
    AbsorbGroups(m, done, sha);
    AbsorbKeys(m, done, sha);
    var m' := Absorb(m, files, sha).groups;
    forall k | k in m ensures k in m' && m[k] <= m'[k] {
      assert Group(m', k) == Group(m, k) + WithDigest(done, k, sha);
    }
  }

  /** The paths in WithDigest are exactly the discovered paths with that digest. */
  lemma {:induction false} WithDigestMembers(files: seq<FileAt>, k: string, sha: Sha256, p: Path)
    ensures p in WithDigest(files, k, sha) <==>
      exists i :: 0 <= i < |files| && files[i].path == p && FileDigest(files[i], sha) == k
    decreases |files|
  {
    if files != [] {
      WithDigestMembers(files[1..], k, sha, p);
      if exists i :: 0 <= i < |files| && files[i].path == p && FileDigest(files[i], sha) == k {
        var i :| 0 <= i < |files| && files[i].path == p && FileDigest(files[i], sha) == k;
        if i > 0 {
          assert files[1..][i - 1] == files[i];
        }
      }
      if exists i :: 0 <= i < |files[1..]| && files[1..][i].path == p && FileDigest(files[1..][i], sha) == k {
        var i :| 0 <= i < |files[1..]| && files[1..][i].path == p && FileDigest(files[1..][i], sha) == k;
        assert files[i + 1] == files[1..][i];
      }
    }
  }

  /** Two discovered files share a group exactly when their digests are equal
      (a scan from an empty map over files with distinct paths). */
  lemma SameGroupIffSameDigest(files: seq<FileAt>, sha: Sha256, i: nat, j: nat)
    requires Absorb(map[], files, sha).Completed?
    requires DistinctPaths(files)
    requires i < |files| && j < |files|
    ensures (exists k :: k in Absorb(map[], files, sha).groups
                && files[i].path in Absorb(map[], files, sha).groups[k]
                && files[j].path in Absorb(map[], files, sha).groups[k])
      <==> FileDigest(files[i], sha) == FileDigest(files[j], sha)
  {
    var m' := Absorb(map[], files, sha).groups;
    if FileDigest(files[i], sha) == FileDigest(files[j], sha) {
      InOwnGroup(files, sha, i);
      InOwnGroup(files, sha, j);
    }
    if exists k :: k in m' && files[i].path in m'[k] && files[j].path in m'[k] {
      var k :| k in m' && files[i].path in m'[k] && files[j].path in m'[k];
      GroupHasDigest(files, sha, i, k);
      GroupHasDigest(files, sha, j, k);
    }
  }

  /** A discovered file is in the group of its own digest. */
  lemma InOwnGroup(files: seq<FileAt>, sha: Sha256, i: nat)
    requires Absorb(map[], files, sha).Completed?
    requires i < |files|
    ensures FileDigest(files[i], sha) in Absorb(map[], files, sha).groups
    ensures files[i].path in Absorb(map[], files, sha).groups[FileDigest(files[i], sha)]
  {
    var m' := Absorb(map[], files, sha).groups;
    var h := FileDigest(files[i], sha);
    AbsorbGroups(map[], files, sha);
    WithDigestMembers(files, h, sha, files[i].path);
    assert Group(m', h) == WithDigest(files, h, sha);
  }

  /** A file whose path is in group k has digest k, when paths are distinct. */
  lemma GroupHasDigest(files: seq<FileAt>, sha: Sha256, i: nat, k: string)
    requires Absorb(map[], files, sha).Completed?
    requires DistinctPaths(files)
    requires i < |files|
    requires k in Absorb(map[], files, sha).groups && files[i].path in Absorb(map[], files, sha).groups[k]
    ensures FileDigest(files[i], sha) == k
  {
    var m' := Absorb(map[], files, sha).groups;
    AbsorbGroups(map[], files, sha);
    assert Group(m', k) == WithDigest(files, k, sha);
    WithDigestMembers(files, k, sha, files[i].path);
    var a :| 0 <= a < |files| && files[a].path == files[i].path && FileDigest(files[a], sha) == k;
    assert a == i;
  }

  /** End to end: after scanning a tree in which no directory holds two entries
      of the same name, two discovered files share a group exactly when their
      digests are equal. */
  lemma ScanGroupsByDigest(root: Path, es: seq<Entry>, d: int, sha: Sha256, files: seq<FileAt>, i: nat, j: nat)
    requires UniqueNames(es)
    requires files == Scan([Pending(root, es)], d)
    ensures Absorb(map[], files, sha).Completed? && i < |files| && j < |files| ==>
      ((exists k :: k in Absorb(map[], files, sha).groups
                && files[i].path in Absorb(map[], files, sha).groups[k]
                && files[j].path in Absorb(map[], files, sha).groups[k])
       <==> FileDigest(files[i], sha) == FileDigest(files[j], sha))
  {
    ScanDistinctPaths(root, es, d);
    if Absorb(map[], files, sha).Completed? && i < |files| && j < |files| {
      SameGroupIffSameDigest(files, sha, i, j);
    }
  }

  // ---------------------------------------------------------------------------
  // Counting group members.
  // ---------------------------------------------------------------------------

  /** Total number of paths held in all groups. */
  ghost function TotalMembers(m: DupMap): nat
    decreases |m.Keys|
  {
    if m == map[] then 0
    else
      var k :| k in m;
      assert |(m - {k}).Keys| < |m.Keys| by {
        assert (m - {k}).Keys == m.Keys - {k};
      }
      |m[k]| + TotalMembers(m - {k})
  }

  lemma {:induction false} TotalMembersRemove(m: DupMap, k: string)
    requires k in m
    ensures TotalMembers(m) == |m[k]| + TotalMembers(m - {k})
    decreases |m.Keys|
  {
    var j :| j in m && TotalMembers(m) == |m[j]| + TotalMembers(m - {j});
    if j != k {
      assert (m - {j}).Keys == m.Keys - {j};
      assert (m - {k}).Keys == m.Keys - {k};
      TotalMembersRemove(m - {j}, k);
      TotalMembersRemove(m - {k}, j);
      assert (m - {j}) - {k} == (m - {k}) - {j};
    }
  }

  lemma TotalMembersAppend(m: DupMap, h: string, p: Path)
    ensures TotalMembers(Append(m, h, p)) == TotalMembers(m) + 1
  {
    var m' := Append(m, h, p);
    TotalMembersRemove(m', h);
    assert m' - {h} == m - {h};
    if h in m {
      TotalMembersRemove(m, h);
    } else {
      assert m - {h} == m;
    }
  }

  /** Every discovered file is appended exactly once: a completed scan adds as many
      members as it discovered files. */
  lemma {:induction false} AbsorbCountsFiles(m: DupMap, files: seq<FileAt>, sha: Sha256)
    requires Absorb(m, files, sha).Completed?
    ensures TotalMembers(Absorb(m, files, sha).groups) == TotalMembers(m) + |files|
    decreases |files|
  {
    if files != [] {
      var h := FileDigest(files[0], sha);
      TotalMembersAppend(m, h, files[0].path);
      AbsorbCountsFiles(Append(m, h, files[0].path), files[1..], sha);
    }
  }

  // ---------------------------------------------------------------------------
  // The map's shape: what every FindDup keeps true of duplist.
  // ---------------------------------------------------------------------------

  /** What a rendered SHA-256 digest looks like: 64 lowercase hex digits. */
  ghost predicate IsDigestKey(k: string)
  {
    |k| == 64 && forall i :: 0 <= i < |k| ==> IsLowerHex(k[i])
  }

  /** Every key is a rendered SHA-256 digest and every group has a member. */
  ghost predicate WellKeyed(m: DupMap)
  {
    forall k :: k in m ==> IsDigestKey(k) && |m[k]| > 0
  }

  lemma {:induction false} AbsorbKeepsWellKeyed(m: DupMap, files: seq<FileAt>, sha: Sha256)
    requires WellKeyed(m)
    ensures WellKeyed(Absorb(m, files, sha).groups)
    decreases |files|
  {
    if files != [] {
      var h := FileDigest(files[0], sha);
      if h != "" {
        FileDigestIsHex(files[0], sha);
        assert WellKeyed(Append(m, h, files[0].path));
        AbsorbKeepsWellKeyed(Append(m, h, files[0].path), files[1..], sha);
      }
    }
  }
}
