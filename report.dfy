/** What print_dups writes: for every group with more than one member, the
    original followed by its duplicates; "No Duplicates found" when there is none. */
module Report {
  import opened FsTree
  import opened Grouping

  /** One line of output: "Duplicate for file: <original>:", a tab-indented
      duplicate, the blank line closing a group, or "No Duplicates found". */
  datatype Line = DuplicateFor(original: Path) | Duplicate(path: Path) | GroupEnd | NoDuplicatesFound

  /** `order` lists every key of the map exactly once: an iteration order of the
      unordered_map, which the source leaves unspecified. */
  ghost predicate Enumerates(order: seq<string>, keys: set<string>)
  {
    && (forall i, j :: 0 <= i < j < |order| ==> order[i] != order[j])
    && (forall k :: k in keys <==> k in order)
  }

  /** The tab-indented lines of the duplicates, in stored order. */
  function DuplicateLines(files: seq<Path>): seq<Line>
  {
    if files == [] then [] else DuplicateLines(files[..|files| - 1]) + [Duplicate(files[|files| - 1])]
  }

  /** A group's block: nothing for a unique file, else the original then files[1..]. */
  function GroupLines(files: seq<Path>): seq<Line>
  {
    if |files| > 1 then [DuplicateFor(files[0])] + DuplicateLines(files[1..]) + [GroupEnd] else []
  }

  /** The blocks of the groups, visited in `order`. */
  function Blocks(m: DupMap, order: seq<string>): seq<Line>
  {
    if order == [] then [] else Blocks(m, order[..|order| - 1]) + GroupLines(Group(m, order[|order| - 1]))
  }

  /** The whole listing for one iteration order of the map. */
  function Listing(m: DupMap, order: seq<string>): seq<Line>
  {
    var b := Blocks(m, order);
    if b == [] then [NoDuplicatesFound] else b
  }

  lemma {:induction false} DuplicateLinesAt(files: seq<Path>)
    ensures |DuplicateLines(files)| == |files|
    ensures forall i :: 0 <= i < |files| ==> DuplicateLines(files)[i] == Duplicate(files[i])
  {
    if files != [] {
      DuplicateLinesAt(files[..|files| - 1]);
    }
  }

  /** A group's block names the original (files[0]) first, then every later member
      in stored order, then the closing blank line. */
  lemma GroupLinesAt(files: seq<Path>)
    requires |files| > 1
    ensures |GroupLines(files)| == |files| + 1
    ensures GroupLines(files)[0] == DuplicateFor(files[0])
    ensures forall i :: 1 <= i < |files| ==> GroupLines(files)[i] == Duplicate(files[i])
    ensures GroupLines(files)[|files|] == GroupEnd
  {
    var dl := DuplicateLines(files[1..]);
    DuplicateLinesAt(files[1..]);
    var g := [DuplicateFor(files[0])] + dl + [GroupEnd];
    assert GroupLines(files) == g;
    forall i | 1 <= i < |files| ensures g[i] == Duplicate(files[i]) {
      assert g[i] == dl[i - 1];
      assert files[1..][i - 1] == files[i];
    }
  }

  lemma {:induction false} BlocksHaveNoNotice(m: DupMap, order: seq<string>)
    ensures NoDuplicatesFound !in Blocks(m, order)
  {
    if order != [] {
      BlocksHaveNoNotice(m, order[..|order| - 1]);
      var g := Group(m, order[|order| - 1]);
      if |g| > 1 {
        DuplicateLinesAt(g[1..]);
      }
    }
  }

  lemma {:induction false} BlocksEmptyIff(m: DupMap, order: seq<string>)
    ensures Blocks(m, order) == [] <==> forall i :: 0 <= i < |order| ==> |Group(m, order[i])| <= 1
  {
    if order != [] {
      var pre, last := order[..|order| - 1], order[|order| - 1];
      BlocksEmptyIff(m, pre);
      GroupLinesEmptyIff(Group(m, last));
      ConcatEmptyIff(Blocks(m, pre), GroupLines(Group(m, last)));
      AllSmallSnoc(m, order, pre);
    }
  }

  lemma GroupLinesEmptyIff(files: seq<Path>)
    ensures GroupLines(files) == [] <==> |files| <= 1
  {
  }

  lemma ConcatEmptyIff<T>(a: seq<T>, b: seq<T>)
    ensures a + b == [] <==> a == [] && b == []
  {
    assert |a + b| == |a| + |b|;
  }

  /** "No group of the first n keys has two members" splits off the last key. */
  lemma AllSmallSnoc(m: DupMap, order: seq<string>, pre: seq<string>)
    requires order != [] && pre == order[..|order| - 1]
    ensures (forall i :: 0 <= i < |order| ==> |Group(m, order[i])| <= 1) <==>
      (forall i :: 0 <= i < |pre| ==> |Group(m, pre[i])| <= 1) && |Group(m, order[|order| - 1])| <= 1
  {
    assert forall i :: 0 <= i < |pre| ==> pre[i] == order[i];
  }

  /** "No Duplicates found" is printed exactly when no group has more than one member. */
  lemma ListingNoticeIff(m: DupMap, order: seq<string>)
    requires Enumerates(order, m.Keys)
    ensures Listing(m, order) == [NoDuplicatesFound] <==> forall k :: k in m ==> |m[k]| <= 1
    ensures NoDuplicatesFound in Listing(m, order) <==> forall k :: k in m ==> |m[k]| <= 1
  {
    BlocksEmptyIff(m, order);
    BlocksHaveNoNotice(m, order);
    if forall k :: k in m ==> |m[k]| <= 1 {
      assert forall i :: 0 <= i < |order| ==> |Group(m, order[i])| <= 1;
    } else {
      var k :| k in m && |m[k]| > 1;
      var i :| 0 <= i < |order| && order[i] == k;
    }
  }

  /** The blocks of the first j groups are a prefix of the blocks of all groups. */
  lemma {:induction false} BlocksPrefix(m: DupMap, order: seq<string>, j: nat)
    requires j <= |order|
    ensures Blocks(m, order[..j]) <= Blocks(m, order)
  {
    if j < |order| {
      var pre := order[..|order| - 1];
      assert order[..j] == pre[..j];
      BlocksPrefix(m, pre, j);
      PrefixConcat(Blocks(m, order[..j]), Blocks(m, pre), GroupLines(Group(m, order[|order| - 1])));
    } else {
      assert order[..j] == order;
    }
  }

  lemma PrefixConcat<T>(a: seq<T>, b: seq<T>, c: seq<T>)
    requires a <= b
    ensures a <= b + c
  {
  }

  /** Every group's block appears whole, right after the blocks of the groups
      visited before it. */
  lemma BlocksShowGroup(m: DupMap, order: seq<string>, i: nat)
    requires i < |order|
    ensures Blocks(m, order[..i]) + GroupLines(Group(m, order[i])) <= Blocks(m, order)
  {
    BlocksPrefix(m, order, i + 1);
    assert order[..i + 1][..i] == order[..i];
  }

  /** Every group with more than one member appears in the listing as one
      contiguous block. */
  lemma ListingShowsGroup(m: DupMap, order: seq<string>, k: string)
    requires Enumerates(order, m.Keys)
    requires k in m && |m[k]| > 1
    ensures exists a, b :: Listing(m, order) == a + GroupLines(m[k]) + b
  {
    var i :| 0 <= i < |order| && order[i] == k;
    BlocksShowGroup(m, order, i);
    var ab := Blocks(m, order);
    var a, g := Blocks(m, order[..i]), GroupLines(m[k]);
    assert Group(m, order[i]) == m[k];
    assert |g| > 0;
    PrefixSplit(a + g, ab);
    assert Listing(m, order) == ab;
  }

  lemma PrefixSplit<T>(p: seq<T>, s: seq<T>)
    requires p <= s
    ensures s == p + s[|p|..] && |p| <= |s|
  {
  }
}
