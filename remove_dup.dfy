/** The duplicate finder: a FindDup object holds the map from digest to the
    paths sharing it, and the options that bound the scan. */
module RemoveDup {
  import opened Results
  import opened FsTree
  import opened Hex
  import opened FileNames
  import opened Grouping
  import opened Report
  import opened Relocation

  /** C++ `int` and `uint32_t`. */
  type Int32 = x: int | -0x8000_0000 <= x < 0x8000_0000
  type UInt32 = x: int | 0 <= x < 0x1_0000_0000

  /** Storing a uint32_t into an int: the value is kept modulo 2^32. */
  function ToInt32(x: UInt32): (r: Int32)
    ensures (r - x) % 0x1_0000_0000 == 0
  {
    if x < 0x8000_0000 then x else x - 0x1_0000_0000
  }

  /** `std::min` on two unsigned values. */
  function Min(a: UInt32, b: UInt32): (r: UInt32)
    ensures r <= a && r <= b && (r == a || r == b)
  {
    if b < a then b else a
  }

  class FindDup {
    var duplist: DupMap
    /** The order in which the unordered_map walks its keys. The standard leaves it
        unspecified, but it is fixed until a new key is inserted. */
    var keyOrder: seq<string>
    var maxCount: Int32
    var maxDepth: Int32
    var threadCount: Int32
    var recursive: bool

    /** Every key of duplist is a rendered digest, every group is non-empty, and
        keyOrder lists every key exactly once. */
    ghost predicate Valid()
      reads this
    {
      WellKeyed(duplist) && Enumerates(keyOrder, duplist.Keys)
    }

    /** The default options: up to 5000 duplicates, depth 100, not recursive, one thread. */
    constructor ()
      ensures Valid() && duplist == map[] && keyOrder == []
      ensures maxCount == 5000 && maxDepth == 100 && !recursive && threadCount == 1
    {
      duplist := map[];
      keyOrder := [];
      maxCount := 5000;
      maxDepth := 100;
      recursive := false;
      threadCount := 1;
    }

    /** The options as given. */
    constructor WithOptions(maxCnt: Int32, depth: Int32, recurse: bool, tCount: Int32)
      ensures Valid() && duplist == map[] && keyOrder == []
      ensures maxCount == maxCnt && maxDepth == depth && recursive == recurse && threadCount == tCount
    {
      duplist := map[];
      keyOrder := [];
      maxCount := maxCnt;
      maxDepth := depth;
      recursive := recurse;
      threadCount := tCount;
    }

    /** The hex SHA-256 of a file, or "" when the file cannot be opened or hashed. */
    method CalculateSha(f: FileAt, sha: Sha256) returns (h: string)
      ensures h == FileDigest(f, sha)
      ensures h == "" <==> !f.openable
      ensures f.openable ==> h == HexString(sha(f.content)) && |h| == 64
    {
      if !f.openable {
        return "";
      }
      h := RenderHex(sha(f.content));
    }

    /** print_dups: the groups with more than one member, each as its original
      followed by its duplicates, visited in the map's iteration order. */
    method PrintDups() returns (lines: seq<Line>)
      requires Valid()
      ensures lines == Listing(duplist, keyOrder)
      ensures lines == [NoDuplicatesFound] <==> forall k :: k in duplist ==> |duplist[k]| <= 1
    {
      var m, order := duplist, keyOrder;
      var found := false;
      lines := [];
      var i := 0;
      while i < |order|
        invariant 0 <= i <= |order|
        invariant lines == Blocks(m, order[..i])
        invariant found <==> lines != []
      {
        var files := m[order[i]];
        if |files| > 1 {
          found := true;
          var block := GroupBlock(files);
          lines := lines + block;
        }
        BlocksAt(m, order, i);
        i := i + 1;
      }
      assert order[..i] == order;
      if !found {
        lines := lines + [NoDuplicatesFound];
      }
      ListingNoticeIff(m, order);
    }

    /** The block of one group with more than one member: the original, then each
      later member on its own line, then the blank line. */
    static method GroupBlock(files: seq<Path>) returns (block: seq<Line>)
      requires |files| > 1
      ensures block == GroupLines(files)
    {
      block := [DuplicateFor(files[0])];
      var i := 1;
      while i < |files|
        invariant 1 <= i <= |files|
        invariant block == [DuplicateFor(files[0])] + DuplicateLines(files[1..i])
      {
        DuplicateLinesStep(files, i);
        block := block + [Duplicate(files[i])];
        i := i + 1;
      }
      assert files[1..i] == files[1..];
      block := block + [GroupEnd];
    }

    /** listDup: a level-order walk from `root`, visiting at most `max_depth` levels
      when recursive and one level otherwise; every non-directory entry is hashed and
      its path appended to its digest's group; an unhashable file aborts the walk.
      On success the groups are listed as print_dups does. The walk's three nested
      loops are the methods ScanLevels, ScanLevel and ScanDirectory below. */
    method ListDup(root: Path, entries: seq<Entry>, sha: Sha256)
      returns (r: Status, lines: seq<Line>)
      requires Valid()
      modifies this`duplist, this`keyOrder
      ensures Valid()
      ensures duplist.Keys == old(duplist).Keys ==> keyOrder == old(keyOrder)
      ensures r == Success || r == Failed
      ensures duplist == Absorb(old(duplist), Scan([Pending(root, entries)], StartDepth(recursive, maxDepth)), sha).groups
      ensures r == Success <==>
        Absorb(old(duplist), Scan([Pending(root, entries)], StartDepth(recursive, maxDepth)), sha).Completed?
      ensures r == Success ==> lines == Listing(duplist, keyOrder)
      ensures r == Failed ==> lines == []
    {
      var keys := duplist.Keys;
      var recurseDepth: int := if recursive then maxDepth else 1;
      var ok := ScanLevels([Pending(root, entries)], recurseDepth, sha);
      AbsorbKeepsWellKeyed(old(duplist), Scan([Pending(root, entries)], recurseDepth), sha);
      if duplist.Keys != keys {
        keyOrder := IterationOrder(duplist.Keys);
      }
      if !ok {
        return Failed, [];
      }
      lines := PrintDups();
      r := Success;
    }

    /** The outer loop of listDup: drains the queue one level at a time while the
      depth counter is not zero. */
    method ScanLevels(queue: seq<Pending>, depth: int, sha: Sha256) returns (ok: bool)
      modifies this`duplist
      ensures Absorb(old(duplist), Scan(queue, depth), sha) == (if ok then Completed(duplist) else Aborted(duplist))
    {
      ghost var all := Scan(queue, depth);
      ghost var done: seq<FileAt> := [];
      var dirQueue := queue;
      var recurseDepth := depth;
      while dirQueue != [] && recurseDepth != 0
        invariant all == done + Scan(dirQueue, recurseDepth)
        invariant Absorb(old(duplist), done, sha) == Completed(duplist)
        decreases QueueSize(dirQueue)
      {
        NextLevelSmaller(dirQueue);
        ghost var mid := duplist;
        var levelOk, nextDirQueue := ScanLevel(dirQueue, sha);
        LevelOutcome(old(duplist), done, mid, duplist, dirQueue, recurseDepth, levelOk, all, sha);
        if !levelOk {
          return false;
        }
        done := done + LevelFiles(dirQueue);
        dirQueue := nextDirQueue;
        recurseDepth := recurseDepth - 1;
      }
      WalkDone(all, done, dirQueue, recurseDepth);
      ok := true;
    }

    /** One level of the walk: every queued directory in turn, collecting the
      sub-directories of the next level. */
    method ScanLevel(level: seq<Pending>, sha: Sha256) returns (ok: bool, next: seq<Pending>)
      modifies this`duplist
      ensures Absorb(old(duplist), LevelFiles(level), sha) == (if ok then Completed(duplist) else Aborted(duplist))
      ensures ok ==> next == NextLevel(level)
    {
      var dirQueue := level;
      next := [];
      var i := 0;
      while i < |level|
        invariant 0 <= i <= |level|
        invariant dirQueue == level[i..]
        invariant next == NextLevel(level[..i])
        invariant Absorb(old(duplist), LevelFiles(level[..i]), sha) == Completed(duplist)
      {
        var cur := dirQueue[0];
        dirQueue := dirQueue[1..];
        ghost var mid := duplist;
        var found;
        ok, found := ScanDirectory(cur, sha);
        LevelSplit(level, i);
        AbsorbThen(old(duplist), LevelFiles(level[..i]), mid, DirFiles(cur.path, cur.entries), LevelFiles(level[i + 1..]), sha);
        if !ok {
          return;
        }
        LevelStep(level, i);
        AbsorbAppend(old(duplist), LevelFiles(level[..i]), DirFiles(cur.path, cur.entries), sha);
        next := next + found;
        i := i + 1;
      }
      assert level[..i] == level;
      ok := true;
    }

    /** One directory: each regular file is hashed and filed under its digest, each
      sub-directory is queued for the next level. */
    method ScanDirectory(cur: Pending, sha: Sha256) returns (ok: bool, subDirs: seq<Pending>)
      modifies this`duplist
      ensures Absorb(old(duplist), DirFiles(cur.path, cur.entries), sha) == (if ok then Completed(duplist) else Aborted(duplist))
      ensures ok ==> subDirs == SubDirs(cur.path, cur.entries)
    {
      subDirs := [];
      var j := 0;
      while j < |cur.entries|
        invariant 0 <= j <= |cur.entries|
        invariant subDirs == SubDirs(cur.path, cur.entries[..j])
        invariant Absorb(old(duplist), DirFiles(cur.path, cur.entries[..j]), sha) == Completed(duplist)
      {
        var entry := cur.entries[j];
        if entry.Dir? {
          DirStep(cur.path, cur.entries, j);
          subDirs := subDirs + [Pending(cur.path + [entry.name], entry.children)];
        } else {
          var fPath := cur.path + [entry.name];
          var fHash := CalculateSha(FileAt(fPath, entry.content, entry.openable), sha);
          if fHash == "" {
            FileAborts(old(duplist), cur.path, cur.entries, j, duplist, sha);
            return false, [];
          }
          FileStep(old(duplist), cur.path, cur.entries, j, duplist, sha);
          duplist := duplist[fHash := (if fHash in duplist then duplist[fHash] else []) + [fPath]];
        }
        j := j + 1;
      }
      assert cur.entries[..j] == cur.entries;
      ok := true;
    }

    /** moveDup: a missing target directory is created, a target that exists but
      is not a directory fails; then every group member after the original is moved
      into the target under its own name, or, when that name is taken, under the name
      with a random number in [458970, 2000000000] inserted before the extension. A
      taken name without an extension fails, leaving earlier moves in place. The loop
      over one group's members is the method MoveGroup below. */
    method MoveDup(target: Target) returns (r: Status, moves: seq<Move>, after: Target)
      requires Valid()
      ensures r == Success || r == Failed
      ensures target.NotADirectory? ==> r == Failed && moves == [] && after == target
      ensures !target.NotADirectory? ==> after == Directory(StartNames(target) + Targets(moves))
      ensures MovesOk(StartNames(target), moves)
      ensures r == Success ==> Sources(moves) == Movers(duplist, keyOrder)
      ensures r == Failed && !target.NotADirectory? ==>
        && Sources(moves) < Movers(duplist, keyOrder)
        && FileName(Movers(duplist, keyOrder)[|Sources(moves)|]) in after.names
        && '.' !in FileName(Movers(duplist, keyOrder)[|Sources(moves)|])
    {
      if target.NotADirectory? {
        return Failed, [], target;
      }
      var names := StartNames(target);
      var m, order := duplist, keyOrder;
      moves := [];
      var i := 0;
      while i < |order|
        invariant 0 <= i <= |order|
        invariant Sources(moves) == Movers(m, order[..i])
        invariant names == StartNames(target) + Targets(moves)
        invariant MovesOk(StartNames(target), moves)
      {
        var k := order[i];
        var ok;
        ghost var stop;
        ok, moves, names, stop := MoveGroup(m[k], StartNames(target), names, moves);
        MoversAt(m, order, i);
        if !ok {
          MoveFailsAt(m[k], stop, Movers(m, order[..i]), Sources(moves));
          MoversPrefix(m, order, i + 1);
          StrictPrefixAt(Sources(moves), Movers(m, order[..i + 1]), Movers(m, order));
          return Failed, moves, Directory(names);
        }
        i := i + 1;
      }
      assert order[..i] == order;
      r, after := Success, Directory(names);
    }

    /** The inner loop of moveDup over one group, members 1 onwards; `base` is what
      the target held before moveDup began and `names` what it holds now. On failure
      `stop` is the member whose taken name has no extension. */
    static method MoveGroup(group: seq<Path>, base: set<string>, names: set<string>, moves: seq<Move>)
      returns (ok: bool, moves': seq<Move>, names': set<string>, ghost stop: nat)
      requires names == base + Targets(moves) && MovesOk(base, moves)
      ensures names' == base + Targets(moves') && MovesOk(base, moves')
      ensures ok ==> Sources(moves') == Sources(moves) + Tail(group)
      ensures !ok ==> 1 <= stop < |group| && Sources(moves') == Sources(moves) + group[1..stop]
      ensures !ok ==> FileName(group[stop]) in names' && '.' !in FileName(group[stop])
    {
      moves', names', stop := moves, names, 0;
      var i := 1;
      while i < |group|
        invariant 1 <= i <= |Tail(group)| + 1
        invariant Sources(moves') == Sources(moves) + Tail(group)[..i - 1]
        invariant names' == base + Targets(moves') && MovesOk(base, moves')
      {
        var named, fn := TargetName(group[i], names');
        if !named {
          TailPrefix(group, i);
          return false, moves', names', i;
        }
        GroupStep(base, moves, moves', names', group, i, fn);
        moves' := moves' + [Move(group[i], fn)];
        names' := names' + {fn};
        i := i + 1;
      }
      assert Tail(group)[..i - 1] == Tail(group);
      ok := true;
    }

    /** The name member `from` gets in a target holding `names`: its own file name
      when that is free, else the name with a random number inserted before the
      extension; no name when the taken name has no extension. */
    static method TargetName(from: Path, names: set<string>) returns (ok: bool, fn: string)
      ensures ok ==> MoveOk(names, Move(from, fn))
      ensures !ok ==> FileName(from) in names && '.' !in FileName(from)
    {
      fn := FileName(from);
      ok := true;
      if fn in names {
        var suffix: nat :| MinSuffix <= suffix <= MaxSuffix;
        var st, fnExt := GetFilenameExt(fn, ("", ""));
        if st == Failed {
          return false, fn;
        }
        RenamedIsOk(names, from, suffix, fnExt);
        fn := fnExt.0 + Decimal(suffix) + "." + fnExt.1;
      }
    }

    /** set_recurse_depth: records the depth, and switches recursion on (never off)
      when the depth is above one. */
    method SetRecurseDepth(depth: Int32) returns (r: Status)
      modifies this`maxDepth, this`recursive
      ensures r == Success
      ensures maxDepth == depth
      ensures recursive == (old(recursive) || depth > 1)
    {
      maxDepth := depth;
      if depth > 1 {
        recursive := true;
      }
      r := Success;
    }

    /** set_thread_count: at most the hardware's concurrency, stored into an int. */
    method SetThreadCount(tCount: UInt32, hardwareConcurrency: UInt32) returns (r: Status)
      modifies this`threadCount
      ensures r == Success
      ensures threadCount == ToInt32(Min(tCount, hardwareConcurrency))
    {
      var t := Min(tCount, hardwareConcurrency);
      threadCount := ToInt32(t);
      r := Success;
    }

    /** set_max_count. */
    method SetMaxCount(maxCnt: Int32) returns (r: Status)
      modifies this`maxCount
      ensures r == Success
      ensures maxCount == maxCnt
    {
      maxCount := maxCnt;
      r := Success;
    }
  }

  /** A taken name that splits into stem and extension is renamed by the rule. */
  lemma RenamedIsOk(names: set<string>, from: Path, suffix: nat, fnExt: (string, string))
    requires FileName(from) in names && MinSuffix <= suffix <= MaxSuffix
    requires SplitExt(FileName(from)) == Some(fnExt)
    ensures MoveOk(names, Move(from, fnExt.0 + Decimal(suffix) + "." + fnExt.1))
  {
    assert RenamedName(FileName(from), suffix) == Some(fnExt.0 + Decimal(suffix) + "." + fnExt.1);
  }

  /** One more move: it is recorded as a source and its name joins the target. */
  lemma MovesStep(names: set<string>, moves: seq<Move>, mv: Move)
    requires MovesOk(names, moves) && MoveOk(names + Targets(moves), mv)
    ensures MovesOk(names, moves + [mv])
    ensures Targets(moves + [mv]) == Targets(moves) + {mv.to}
    ensures Sources(moves + [mv]) == Sources(moves) + [mv.from]
  {
    assert (moves + [mv])[..|moves|] == moves;
  }

  /** One member of a group moved: the loop's invariant holds for the next member. */
  lemma GroupStep(base: set<string>, moves0: seq<Move>, moves: seq<Move>, names: set<string>,
                  group: seq<Path>, i: nat, fn: string)
    requires 1 <= i < |group|
    requires names == base + Targets(moves) && MovesOk(base, moves)
    requires Sources(moves) == Sources(moves0) + Tail(group)[..i - 1]
    requires MoveOk(names, Move(group[i], fn))
    ensures names + {fn} == base + Targets(moves + [Move(group[i], fn)])
    ensures MovesOk(base, moves + [Move(group[i], fn)])
    ensures Sources(moves + [Move(group[i], fn)]) == Sources(moves0) + Tail(group)[..i]
  {
    MovesStep(base, moves, Move(group[i], fn));
    SourcesStep(moves0, moves, group, i, fn);
  }

  lemma TailPrefix(group: seq<Path>, i: nat)
    requires 1 <= i < |group|
    ensures Tail(group)[..i - 1] == group[1..i]
  {
  }

  /** Moving member i of a group extends the moved paths by that member. */
  lemma SourcesStep(moves0: seq<Move>, moves: seq<Move>, group: seq<Path>, i: nat, fn: string)
    requires 1 <= i < |group|
    requires Sources(moves) == Sources(moves0) + Tail(group)[..i - 1]
    ensures Sources(moves + [Move(group[i], fn)]) == Sources(moves0) + Tail(group)[..i]
  {
    assert (moves + [Move(group[i], fn)])[..|moves|] == moves;
    var a, b := Sources(moves0), Tail(group)[..i - 1];
    assert Tail(group)[..i] == b + [group[i]];
    assert (a + b) + [group[i]] == a + (b + [group[i]]);
  }

  lemma MoversAt(m: DupMap, order: seq<string>, i: nat)
    requires i < |order| && order[i] in m
    ensures Movers(m, order[..i + 1]) == Movers(m, order[..i]) + Tail(m[order[i]])
  {
    assert order[..i + 1][..i] == order[..i];
  }

  /** The moves of the groups visited first are a prefix of all the moves. */
  lemma {:induction false} MoversPrefix(m: DupMap, order: seq<string>, j: nat)
    requires j <= |order|
    ensures Movers(m, order[..j]) <= Movers(m, order)
  {
    if j < |order| {
      var pre := order[..|order| - 1];
      assert order[..j] == pre[..j];
      MoversPrefix(m, pre, j);
      PrefixConcat(Movers(m, order[..j]), Movers(m, pre), Tail(Group(m, order[|order| - 1])));
    } else {
      assert order[..j] == order;
    }
  }

  lemma StrictPrefixAt<T>(a: seq<T>, b: seq<T>, c: seq<T>)
    requires a < b && b <= c
    ensures a < c && c[|a|] == b[|a|]
  {
  }

  /** Where moveDup stops when a taken name has no extension: the moves so far are
      a proper prefix of what it meant to move, and the next path is the one it stops at. */
  lemma MoveFailsAt(g: seq<Path>, stop: nat, visited: seq<Path>, moved: seq<Path>)
    requires 1 <= stop < |g| && moved == visited + g[1..stop]
    ensures moved < visited + Tail(g)
    ensures (visited + Tail(g))[|moved|] == g[stop]
  {
    assert Tail(g) == g[1..stop] + g[stop..];
  }

  lemma DuplicateLinesStep(files: seq<Path>, i: nat)
    requires 1 <= i < |files|
    ensures DuplicateLines(files[1..i + 1]) == DuplicateLines(files[1..i]) + [Duplicate(files[i])]
  {
    assert files[1..i + 1][..i - 1] == files[1..i];
  }

  lemma BlocksAt(m: DupMap, order: seq<string>, i: nat)
    requires i < |order| && order[i] in m
    ensures Blocks(m, order[..i + 1]) == Blocks(m, order[..i]) + GroupLines(m[order[i]])
  {
    assert order[..i + 1][..i] == order[..i];
  }

  /** Some order that lists every key once: where the unordered_map places the
      keys after an insertion is left to the implementation. */
  method IterationOrder(keys: set<string>) returns (order: seq<string>)
    ensures Enumerates(order, keys)
  {
    var rest := keys;
    order := [];
    while rest != {}
      invariant rest <= keys
      invariant forall k :: k in keys ==> (k in rest <==> k !in order)
      invariant forall k :: k in order ==> k in keys
      invariant forall a, b :: 0 <= a < b < |order| ==> order[a] != order[b]
      decreases rest
    {
      var k :| k in rest;
      order := order + [k];
      rest := rest - {k};
    }
  }

  /** One more entry of a directory: its file, or its sub-directory. */
  lemma EntryStep(path: Path, es: seq<Entry>, j: nat)
    requires j < |es|
    ensures DirFiles(path, es[..j + 1]) == DirFiles(path, es[..j]) + EntryFile(path, es[j])
    ensures SubDirs(path, es[..j + 1]) == SubDirs(path, es[..j]) + EntryDir(path, es[j])
  {
    assert es[..j + 1][..j] == es[..j];
  }

  /** A sub-directory entry adds no file and queues the sub-directory. */
  lemma DirStep(path: Path, es: seq<Entry>, j: nat)
    requires j < |es| && es[j].Dir?
    ensures DirFiles(path, es[..j + 1]) == DirFiles(path, es[..j])
    ensures SubDirs(path, es[..j + 1]) == SubDirs(path, es[..j]) + [Pending(path + [es[j].name], es[j].children)]
  {
    EntryStep(path, es, j);
  }

  /** A readable file entry is filed under its digest. */
  lemma FileStep(m0: DupMap, path: Path, es: seq<Entry>, j: nat, m: DupMap, sha: Sha256)
    requires j < |es| && es[j].File? && es[j].openable
    requires Absorb(m0, DirFiles(path, es[..j]), sha) == Completed(m)
    ensures SubDirs(path, es[..j + 1]) == SubDirs(path, es[..j])
    ensures var f := FileAt(path + [es[j].name], es[j].content, es[j].openable);
      var h := FileDigest(f, sha);
      Absorb(m0, DirFiles(path, es[..j + 1]), sha) == Completed(m[h := (if h in m then m[h] else []) + [f.path]])
  {
    EntryStep(path, es, j);
    var f := FileAt(path + [es[j].name], es[j].content, es[j].openable);
    AbsorbOne(m0, DirFiles(path, es[..j]), m, f, sha);
  }

  /** An unreadable file entry aborts the whole directory, keeping what came before. */
  lemma FileAborts(m0: DupMap, path: Path, es: seq<Entry>, j: nat, m: DupMap, sha: Sha256)
    requires j < |es| && es[j].File? && !es[j].openable
    requires Absorb(m0, DirFiles(path, es[..j]), sha) == Completed(m)
    ensures Absorb(m0, DirFiles(path, es), sha) == Aborted(m)
  {
    var f := FileAt(path + [es[j].name], es[j].content, es[j].openable);
    var before, after := DirFiles(path, es[..j]), DirFiles(path, es[j + 1..]);
    DirSplit(path, es, j);
    Assoc(before, [f], after);
    AbortsAt(m0, before, m, [f] + after, DirFiles(path, es), sha);
  }

  /** One more directory of a level. */
  lemma LevelStep(level: seq<Pending>, i: nat)
    requires i < |level|
    ensures LevelFiles(level[..i + 1]) == LevelFiles(level[..i]) + DirFiles(level[i].path, level[i].entries)
    ensures NextLevel(level[..i + 1]) == NextLevel(level[..i]) + SubDirs(level[i].path, level[i].entries)
  {
    assert level[..i + 1][..i] == level[..i];
  }

  lemma {:induction false} DirFilesAppend(path: Path, a: seq<Entry>, b: seq<Entry>)
    ensures DirFiles(path, a + b) == DirFiles(path, a) + DirFiles(path, b)
    decreases |b|
  {
    if b == [] {
      EmptyUnit(a);
      EmptyUnit(DirFiles(path, a));
    } else {
      var b', x := b[..|b| - 1], b[|b| - 1];
      SnocSplit(a, b);
      DirFilesAppend(path, a, b');
      Assoc(DirFiles(path, a), DirFiles(path, b'), EntryFile(path, x));
    }
  }

  lemma {:induction false} LevelFilesAppend(a: seq<Pending>, b: seq<Pending>)
    ensures LevelFiles(a + b) == LevelFiles(a) + LevelFiles(b)
    decreases |b|
  {
    if b == [] {
      EmptyUnit(a);
      EmptyUnit(LevelFiles(a));
    } else {
      var b', x := b[..|b| - 1], b[|b| - 1];
      SnocSplit(a, b);
      LevelFilesAppend(a, b');
      Assoc(LevelFiles(a), LevelFiles(b'), DirFiles(x.path, x.entries));
    }
  }

  /** One drained level of the walk: either the scan absorbed the level's files
      and goes on with the next level, or the whole scan aborted inside it. */
  lemma LevelOutcome(m0: DupMap, done: seq<FileAt>, mid: DupMap, m: DupMap, q: seq<Pending>, depth: int,
                     ok: bool, all: seq<FileAt>, sha: Sha256)
    requires q != [] && depth != 0
    requires all == done + Scan(q, depth)
    requires Absorb(m0, done, sha) == Completed(mid)
    requires Absorb(mid, LevelFiles(q), sha) == (if ok then Completed(m) else Aborted(m))
    ensures ok ==> all == (done + LevelFiles(q)) + Scan(NextLevel(q), depth - 1)
    ensures ok ==> Absorb(m0, done + LevelFiles(q), sha) == Completed(m)
    ensures !ok ==> Absorb(m0, all, sha) == Aborted(m)
  {
    var level, rest := LevelFiles(q), Scan(NextLevel(q), depth - 1);
    assert Scan(q, depth) == level + rest;
    Assoc(done, level, rest);
    AbsorbThen(m0, done, mid, level, rest, sha);
    AbsorbAppend(m0, done, level, sha);
  }

  /** The walk is over once the queue is empty or the depth counter is zero. */
  lemma WalkDone(all: seq<FileAt>, done: seq<FileAt>, q: seq<Pending>, depth: int)
    requires all == done + Scan(q, depth)
    requires q == [] || depth == 0
    ensures all == done
  {
    assert Scan(q, depth) == [];
  }

  /** Hashing one more readable file appends its path to its digest's group. */
  lemma AbsorbOne(m0: DupMap, done: seq<FileAt>, m: DupMap, f: FileAt, sha: Sha256)
    requires Absorb(m0, done, sha) == Completed(m) && f.openable
    ensures Absorb(m0, done + [f], sha) == Completed(Append(m, FileDigest(f, sha), f.path))
  {
    AbsorbAppend(m0, done, [f], sha);
  }

  lemma LevelSplit(level: seq<Pending>, i: nat)
    requires i < |level|
    ensures LevelFiles(level) == LevelFiles(level[..i]) + DirFiles(level[i].path, level[i].entries) + LevelFiles(level[i + 1..])
  {
    assert level == level[..i + 1] + level[i + 1..];
    LevelFilesAppend(level[..i + 1], level[i + 1..]);
    LevelStep(level, i);
  }

  lemma DirSplit(path: Path, es: seq<Entry>, j: nat)
    requires j < |es| && es[j].File?
    ensures DirFiles(path, es) ==
      DirFiles(path, es[..j]) + [FileAt(path + [es[j].name], es[j].content, es[j].openable)] + DirFiles(path, es[j + 1..])
  {
    assert es == es[..j] + [es[j]] + es[j + 1..];
    DirFilesAppend(path, es[..j] + [es[j]], es[j + 1..]);
    DirFilesAppend(path, es[..j], [es[j]]);
    assert [es[j]][..0] == [];
  }

  /** Absorbing a + rest when a is absorbed from m0 into m1 and b from m1 ends where
      absorbing b ends, or goes on with rest. */
  lemma AbsorbThen(m0: DupMap, a: seq<FileAt>, m1: DupMap, b: seq<FileAt>, rest: seq<FileAt>, sha: Sha256)
    requires Absorb(m0, a, sha) == Completed(m1)
    ensures Absorb(m0, a + b + rest, sha) ==
      match Absorb(m1, b, sha)
      case Completed(m2) => Absorb(m2, rest, sha)
      case Aborted(m2) => Aborted(m2)
  {
    AbsorbAppend(m0, a + b, rest, sha);
    AbsorbAppend(m0, a, b, sha);
  }

  /** The scan aborts at the first file that cannot be hashed, keeping what came before. */
  lemma AbortsAt(m0: DupMap, done: seq<FileAt>, m: DupMap, rest: seq<FileAt>, whole: seq<FileAt>, sha: Sha256)
    requires Absorb(m0, done, sha) == Completed(m)
    requires rest != [] && !rest[0].openable
    requires whole == done + rest
    ensures Absorb(m0, whole, sha) == Aborted(m)
  {
    AbsorbAppend(m0, done, rest, sha);
  }
}
