# remove_duplicate: a Dafny model of the duplicate finder

The original program finds files with identical content under a directory
and can list them or move them elsewhere. Its engine is the class `FindDup`
(`src/remove_dup.cc`, declared in `hdr/remove_dup.h`), and this project
models that class.

**State.** A `FindDup` holds `duplist`, which maps the hex SHA-256 of a file's
content to the paths with that content, in the order they were found. The
first path of each group is the "original". It also holds the options
`max_count`, `max_depth`, `thread_count` and `recursive`. The model adds the
field `keyOrder`: the order in which the `unordered_map` walks its keys. The
C++ standard leaves that order unspecified, but it stays the same until a new
key is inserted. The class invariant `Valid()` says that every key is a
digest of 64 lowercase hex digits, that every group is non-empty, and that `keyOrder` lists
every key exactly once. `PrintDups` and `MoveDup` require it in order to walk
`keyOrder`, and `ListDup` keeps it. Its first part states what every group
the source builds looks like: a key always has the shape of a rendered digest and a group
always has an original at index 0.

**Operations.**
- `listDup` walks a directory tree level by level: at most `max_depth` levels
  when recursive and `max_depth` >= 0, every level when it is negative (the
  loop runs while the counter is non-zero), and one level otherwise. It appends every regular file's path
  to the group of its digest, aborts on the first file it cannot hash, and
  then prints the groups.
- `print_dups` lists every group with more than one member, or prints
  "No Duplicates found".
- `moveDup` moves every member after the original into a target directory. A
  name already taken in the target gets a random number inserted before its
  extension; `get_filename_ext` splits the name at its last dot.
- The setters update the options.

**Model structure.** The model is imperative where the source is. `FindDup` is
a Dafny class whose `duplist` field the methods reassign. Every loop of the
modelled code is a `while` loop with invariants.

Each method is proved against a specification function:
- `Scan`: the files a level-order walk hashes.
- `Absorb`: what appending those files does to the map.
- `Listing`: the printed lines.
- `Movers` / `MovesOk`: what is moved, and under which name.

Lemmas then prove what the program promises about those functions: grouping
by digest, level order, the depth bound, abort on hash failure, the listing
rules, and that originals are never moved. A few lemmas check a function
against an independent reference definition:
- the breadth-first `Scan` against a depth-first "files exactly k levels down"
  (`FilesAtDepth`);
- hex rendering against a decoder;
- the recursive `SplitExt` against `get_filename_ext`'s backward loop.

**Files.**
- `results.dfy`: the result code `FindDup_Result_t` and an option type.
- `fs_tree.dfy`: the directory-tree snapshot, the walk `Scan`, and its
  level-order, depth and termination lemmas.
- `hex.dfy`: rendering a 32-byte digest as 64 lowercase hex digits.
- `filename_ext.dfy`: `get_filename_ext`, decimal rendering and the rename rule.
- `grouping.dfy`: how hashing files grows the duplicate map.
- `report.dfy`: the lines `print_dups` writes.
- `relocation.dfy`: the moves `moveDup` makes.
- `remove_dup.dfy`: the class `FindDup` with its constructors, methods and
  setters.

**Inputs and outside services.** SHA-256 is a function parameter
(`seq<Byte> -> Sha256Digest`). Whether a file can be opened is a flag on the
file entry. The directory tree is a value given to `ListDup`. The target
directory is a value (missing / not a directory / a directory holding a set
of names), and `MoveDup` returns the moves it makes and the target's names
afterwards. The random number is a nondeterministic choice in [458970,
2000000000]. `std::thread::hardware_concurrency()` is a parameter of
`SetThreadCount`. Console output is returned as a sequence of `Line` values.

## Model

| member | source | states |
|---|---|---|
| RemoveDup.FindDup.constructor | src/remove_dup.cc:27 | default options: max count 5000, depth 100, not recursive, one thread, empty map with an empty key order |
| RemoveDup.FindDup.WithOptions | src/remove_dup.cc:29-30 | the four options are stored as given, the map is empty with an empty key order |
| RemoveDup.FindDup.CalculateSha | src/remove_dup.cc:36-78 | "" exactly when the file cannot be opened; otherwise the 64-character hex rendering of the file's SHA-256 |
| Hex.RenderHex | src/remove_dup.cc:73-76 | the loop over the 32 bytes yields their hex pairs in order: 64 lowercase hex characters |
| Hex.HexDigit | src/remove_dup.cc:75 | a nibble prints as a lowercase hex digit |
| Hex.HexPair | src/remove_dup.cc:75 | a byte prints as exactly two lowercase hex digits (zero-padded) |
| Hex.HexStringShape | src/remove_dup.cc:74-76 | n bytes render to 2n lowercase hex characters |
| Hex.HexRoundTrip | src/remove_dup.cc:73-76 | decoding the rendering gives the bytes back |
| Hex.HexInjective | src/remove_dup.cc:73-77 | two byte strings render equal exactly when they are equal |
| Hex.DigestHexShape | src/remove_dup.cc:73-76 | a digest renders to 64 lowercase hex characters, never "" |
| Grouping.FileDigest | src/remove_dup.cc:36-78 | the key of a file is "" exactly when it cannot be opened, and 64 characters otherwise |
| Grouping.FileDigestIsHex | src/remove_dup.cc:73-76 | a readable file's key is all lowercase hex digits |
| Grouping.SameKeyIffSameSha | src/remove_dup.cc:115-119 | two readable files get the same key exactly when their SHA-256 digests are equal |
| Grouping.Append | src/remove_dup.cc:119 | `duplist[h].push_back(p)`: key h is added if missing, its group gains p at the end, every other group is unchanged |
| Grouping.AbsorbAppend | src/remove_dup.cc:109-119 | absorbing a then b is absorbing a, then b only if a completed |
| Grouping.AbsorbCompletesIffAllReadable | src/remove_dup.cc:115-118 | the scan completes exactly when every discovered file can be hashed |
| Grouping.FirstUnreadable | src/remove_dup.cc:115-117 | the index of the first unhashable file: every file before it is readable, and it (when present) is not |
| Grouping.AbsorbStopsAtFirstUnreadable | src/remove_dup.cc:115-118 | a failing scan keeps exactly the files before the first unhashable one; nothing after it is hashed |
| Grouping.AbsorbGroups | src/remove_dup.cc:109-119 | after a completed scan each group is its old members followed, in discovery order, by exactly the discovered files with that digest |
| Grouping.AbsorbKeys | src/remove_dup.cc:119 | the keys afterwards are the old keys plus the digests of the discovered files |
| Grouping.GroupsOnlyGrow | src/remove_dup.cc:119 | old groups are never removed or reordered, only extended, whether the scan completes or aborts |
| Grouping.WithDigestMembers | src/remove_dup.cc:119 | a path is in the appended part of group k exactly when a discovered file with that path has digest k |
| Grouping.SameGroupIffSameDigest | src/remove_dup.cc:115-119 | starting from an empty map, two discovered files share a group exactly when their digests are equal |
| Grouping.ScanGroupsByDigest | src/remove_dup.cc:100-119 | after a completed walk from an empty map over a tree with unique names per directory, two hashed files share a group exactly when their digests are equal |
| Grouping.InOwnGroup | src/remove_dup.cc:119 | every discovered file is in the group of its own digest |
| Grouping.GroupHasDigest | src/remove_dup.cc:119 | a file found in group k has digest k |
| Grouping.TotalMembersAppend | src/remove_dup.cc:119 | one push_back adds exactly one member to the map |
| Grouping.AbsorbCountsFiles | src/remove_dup.cc:109-119 | a completed scan adds exactly as many members as it discovered files |
| Grouping.AbsorbKeepsWellKeyed | src/remove_dup.cc:115-119 | every key stays 64 lowercase hex digits, as a rendered digest is, and every group stays non-empty |
| FsTree.NextLevelSmaller | src/remove_dup.cc:103-125 | each level drained leaves a strictly smaller queue to visit, so the walk terminates on a finite tree |
| FsTree.ScanIsDepthPrefix | src/remove_dup.cc:100-125 | with counter d >= 0 the walk hashes exactly the files of the first d levels, each level in full before the next, in queue order |
| FsTree.DepthPrefixUnfold | src/remove_dup.cc:103-124 | the first d + 1 levels are the queued directories' own files, then the first d levels below their sub-directories |
| FsTree.ScanDepthBoundAndOrder | src/remove_dup.cc:102-124 | every hashed file lies below the root and at most d levels down, and files are hashed in non-decreasing depth |
| FsTree.NonRecursiveScansChildren | src/remove_dup.cc:102 | when not recursive, only the root's direct files are hashed |
| FsTree.NegativeDepthIsUnbounded | src/remove_dup.cc:102-124 | a negative counter never reaches zero: the walk visits every level |
| FsTree.FilesAtDepthPaths | src/remove_dup.cc:109-114 | a file k levels below a directory has that directory as prefix and k + 1 more components |
| FsTree.FilesAtDepthNames | src/remove_dup.cc:109-114 | every file below a directory continues the directory's path with the name of one of its entries |
| FsTree.FilesAtDepthDistinct | src/remove_dup.cc:109-114 | when no directory holds two entries of the same name, the files k levels below a directory have pairwise distinct paths |
| FsTree.DepthPrefixDistinct | src/remove_dup.cc:103-124 | files of different levels have paths of different lengths, so the first d levels together repeat no path |
| FsTree.ScanDistinctPaths | src/remove_dup.cc:100-125 | whatever the counter, the walk from the root never hashes the same path twice |
| RemoveDup.FindDup.ListDup | src/remove_dup.cc:98-130 | the walk starts from the counter max_depth when recursive and 1 otherwise; the new map is the old one with the walk's files absorbed; Success exactly when every file hashed, and then the lines are print_dups's listing; on Failed nothing is printed; the class invariant is kept, and the key order is unchanged when no new key was inserted |
| RemoveDup.IterationOrder | src/remove_dup.cc:119 | after an insertion that adds keys, the map's walk order is some order listing every key exactly once |
| RemoveDup.FindDup.ScanLevels | src/remove_dup.cc:102-125 | the outer loop: the map ends as absorbing the whole walk from the queue and counter, completed or aborted |
| RemoveDup.FindDup.ScanLevel | src/remove_dup.cc:104-123 | one level's directories in queue order: absorbs the level's files and returns the next level's queue |
| RemoveDup.FindDup.ScanDirectory | src/remove_dup.cc:109-121 | one directory: files hashed and filed in iteration order, sub-directories queued; aborts on the first unhashable file |
| Report.DuplicateLinesAt | src/remove_dup.cc:87-89 | one tab-indented line per later member, in stored order |
| Report.GroupLinesAt | src/remove_dup.cc:84-91 | a group's block is its original (files[0]), then files[1..] in stored order, then the blank line |
| Report.BlocksHaveNoNotice | src/remove_dup.cc:82-92 | the group blocks never contain the "No Duplicates found" line |
| Report.BlocksEmptyIff | src/remove_dup.cc:82-92 | no block is printed exactly when no visited group has more than one member |
| Report.ListingNoticeIff | src/remove_dup.cc:93-95 | "No Duplicates found" is printed (and is the whole output) exactly when no group has more than one member |
| Report.BlocksPrefix | src/remove_dup.cc:82-92 | groups are printed in visiting order: the blocks of the first j groups are a prefix of the output |
| Report.BlocksShowGroup | src/remove_dup.cc:82-92 | each group's block follows, whole, the blocks of the groups visited before it |
| Report.ListingShowsGroup | src/remove_dup.cc:80-96 | every group with more than one member appears in the output as one contiguous block |
| RemoveDup.FindDup.PrintDups | src/remove_dup.cc:80-96 | the output is the listing of the map in its walk order `keyOrder`; "No Duplicates found" exactly when no group has two members; the object is not modified, so two calls print the same lines |
| RemoveDup.FindDup.GroupBlock | src/remove_dup.cc:84-91 | the inner loop builds the group's block |
| FileNames.GetFilenameExt | src/remove_dup.cc:136-149 | FAILED exactly when the name has no '.', leaving res unchanged; on SUCCESS stem + "." + ext is the name, ext has no '.', and the split is at the last dot |
| FileNames.SplitExtRoundTrip | src/remove_dup.cc:146-147 | a split puts the name back together, and the extension holds no '.' |
| FileNames.SplitExtFailsIffNoDot | src/remove_dup.cc:137-145 | the split fails exactly when the name has no '.', the empty name included |
| FileNames.SplitExtUnique | src/remove_dup.cc:137-147 | any stem and dot-free extension that make up the name are the split (the stem may contain dots) |
| FileNames.DecimalDigit | src/remove_dup.cc:173 | a digit value prints as a character '0'..'9' |
| FileNames.DecimalRoundTrip | src/remove_dup.cc:173 | the printed number is non-empty, all digits (so no '.'), and reads back as the number |
| FileNames.RenamedKeepsExtension | src/remove_dup.cc:169-174 | renaming fails exactly for a name without '.'; otherwise the new name splits into old stem + digits and the old extension |
| Relocation.MoversFrom | src/remove_dup.cc:161-162 | every path moveDup moves is a member at index >= 1 of a visited group |
| Relocation.MoversContain | src/remove_dup.cc:161-162 | every member at index >= 1 of a visited group is moved |
| Relocation.MoversAreNonOriginals | src/remove_dup.cc:161-178 | over a full iteration order, the moved paths are exactly the members at index >= 1 of all groups |
| Relocation.OriginalNeverMoved | src/remove_dup.cc:162 | the original (index 0) of a group is never moved, when no path is held twice |
| Relocation.MoversDistinct | src/remove_dup.cc:161-178 | each duplicate is moved exactly once |
| Relocation.WithDigestDistinct | src/remove_dup.cc:115-119 | over files with distinct paths, one digest's group lists no path twice |
| Relocation.CompletedDistinctMembers | src/remove_dup.cc:109-119 | a completed scan from an empty map over distinct paths holds no path twice, within a group or across groups |
| Relocation.AbsorbDistinctMembers | src/remove_dup.cc:109-119 | the same for a scan that stopped at an unreadable file: the map it leaves still holds no path twice |
| Relocation.ScanMovesEachDuplicateOnce | src/remove_dup.cc:151-181 | for the map one walk from an empty map leaves, completed or not, over a tree with unique names per directory: every group has an original, no original is ever moved, and every duplicate is moved exactly once |
| Relocation.SourcesLength | src/remove_dup.cc:177 | the i-th move renames the i-th moved path |
| Relocation.MoveKeepsExtension | src/remove_dup.cc:163-177 | a free name is kept; a taken name keeps its extension and gains a number in [458970, 2000000000] in its stem |
| RemoveDup.FindDup.MoveDup | src/remove_dup.cc:151-181 | a target that is not a directory fails before any move; otherwise the target ends holding its old names plus the new ones; on Success exactly the members after each original are moved, groups in the walk order `keyOrder`, each under the name rule; on Failed the moves are a proper prefix of those, stopped at a member whose taken name has no '.'; the map is not modified |
| RemoveDup.FindDup.MoveGroup | src/remove_dup.cc:162-178 | one group: moves members 1.. in order under the name rule, or stops at the first taken name without '.' |
| RemoveDup.FindDup.TargetName | src/remove_dup.cc:163-176 | a free name is kept; a taken name with an extension is renamed with a suffix in range; a taken name without '.' fails |
| RemoveDup.RenamedIsOk | src/remove_dup.cc:168-174 | stem + number + "." + ext is a valid rename under the name rule |
| RemoveDup.FindDup.SetRecurseDepth | src/remove_dup.cc:183-187 | max_depth is the given depth; recursion switches on when depth > 1 and is never switched off |
| RemoveDup.FindDup.SetThreadCount | src/remove_dup.cc:188-192 | thread_count is min(t, hardware concurrency) stored into an int |
| RemoveDup.FindDup.SetMaxCount | src/remove_dup.cc:194-197 | max_count is stored as given |
| RemoveDup.ToInt32 | src/remove_dup.cc:189-190 | a uint32 stored into an int keeps its value modulo 2^32 and lies in int's range |
| RemoveDup.Min | src/remove_dup.cc:189 | std::min: at most both arguments and equal to one of them |

## Left out

- `src/main.cc` is not part of this model. It parses the command line through an external library and prints to the console.
- SHA-256 itself and the OpenSSL context calls (lines 43-72) are not modelled. The digest is an uninterpreted function of the file's bytes. The open, context and init failures are folded into one "cannot be opened" flag. Errors from `EVP_DigestUpdate` are only logged by the source, so they are not modelled either.
- The chunked `ifstream` reading is not modelled; a file's content is its whole byte sequence.
- Filesystem calls (`directory_iterator`, `is_directory`, `exists`, `create_directory`, `rename`) work on abstract values. Their exceptions are not modelled: permission errors, a root that is not a directory, and failed renames.
- Every non-directory entry counts as a regular file, as `is_directory` does.
- Symbolic links are not modelled. `is_directory` follows them, so the source walks a link to a directory like a directory, and a link cycle can make the walk revisit paths without end under a negative counter. The tree of `Entry` values is finite and has no links.
- A rename can write over a file of the same randomly chosen name. The source does not check this, and the model neither checks nor forbids it.
- `std::random_device`/`mt19937` are modelled as a nondeterministic choice in [458970, 2000000000]. Uniformity is not modelled.
- The `unordered_map`'s walk order after an insertion of new keys is any order listing every key once (`IterationOrder`). Which order a given hash table produces is not modelled. Per-group order is exact.
- RemoveDup.FindDup.MoveDup: assumes that no moved file already lies in the target directory. If one does, the source finds its own name taken, renames it, and so frees its old name for a later mover. The model keeps the old name among the target's names.
- `thread_count` and `max_count` are only stored, because nothing in the source reads them.
- `show_dup` and `verbose` (`hdr/remove_dup.h:22-23`) are not modelled, because no definition in the source reads or writes them.
- `delDup` and `listOptions` are stubs that return SUCCESS, so they are not modelled.
- Console text is not modelled, only the structure of the lines `print_dups` writes; log lines to stderr/stdout are dropped.
- The header declares a six-argument constructor and `set_recursive`; the source defines a four-argument constructor and no `set_recursive`. The model follows the definitions.
- The depth counter `recurse_depth` is an unbounded integer. Decrementing a negative `int` 2^31 times is not modelled.
- Grouping.SameGroupIffSameDigest: requires that the discovered paths are pairwise distinct. `Grouping.ScanGroupsByDigest` derives this for a walk over a tree in which no directory holds two entries with the same name.
- Relocation.OriginalNeverMoved: assumes no path is held twice in the map. `Relocation.ScanMovesEachDuplicateOnce` derives this for the map that one walk from an empty map leaves, as on a freshly constructed `FindDup`, whether the walk completed or not.
- That no directory holds two entries with the same name (`FsTree.UniqueNames`) is a property of the filesystem. The end-to-end lemmas take it as a precondition.
- The three nested loops of `listDup` are the methods `ScanLevels`, `ScanLevel` and `ScanDirectory`, and the inner loop of `moveDup` is `MoveGroup`, so that each loop carries its own invariants.
- The source hashes files one at a time, so the model has no concurrency. It signals a hash failure with the empty string, does not skip unreadable directories, keeps no statistics, and keeps the groups appended before a failed scan.
