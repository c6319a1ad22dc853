# dedup in Dafny

A model of the duplicate-file remover in the `dedup` repository. It comes in three variants,
and the model covers all of them:

- the newer Java `DeDup` (`dedup-java/src/main/java/org/bongiorno/DeDup.java`), which has a root
  existence check, a size gate and a `size() > 1` filter;
- the older Java `DeDup` (`src/main/java/org/bongiorno/DeDup.java`), which hashes every regular file;
- the Kotlin `DeDup` (`dedup-kotlin/src/main/kotlin/com/example/demo/DemoApplication.kt`), which uses
  an extension filter and the `exists() && delete()` rule.

The two Java versions run this pipeline, and Kotlin runs it with the changes described after the list:

1. Normalise the `--root` arguments with the `isChild` rule (both Java versions).
2. Walk every root through `listFiles` with a name filter (both Java versions).
3. Keep the regular files.
4. Group them by length.
5. Hash the candidates with a named `MessageDigest` algorithm and render each digest as lower-case hex.
6. Group by digest string.
7. Keep the first file of every group and delete the others.
8. Report "files processed" and "files deleted".

Kotlin differs in steps 1-3. It takes its root set as given, with no `--root` parsing and no
`isChild` rule. It walks each root with `walkTopDown` and no name filter. After the `isFile`
filter of step 3 it keeps the files whose extension is one of the configured types.

The filesystem is one immutable value, `FS = map<Path, Node>`:

- A path is its list of name segments.
- A directory carries the listing `listFiles` returns, or `None` when it returns `null`.
- A file carries its bytes and whether opening it, reading it and deleting it succeed.

Deleting is a transition from one `FS` value to the next.

A digest algorithm is an uninterpreted function from bytes to bytes. The algorithms are looked up by
name in a registry map. Each hash failure aborts the run before anything is deleted, and it is
modelled as a `Result` error (`NotReadable`, `NoSuchAlgorithm`).

Modules, in dependency order:

- `Results`, `Paths`, `FileSystem`: the data model.
- `Roots`: the `--root` rule.
- `Filters`: the suffix match and the Kotlin `extension`.
- `Walker`: `getFiles` and `walkTopDown`.
- `Grouping`: `groupingBy` and drop-first.
- `HexFormat`: `%02x`.
- `Hashing`: the read loops and per-file hashing.
- `Deletion`: `deleteIfExists` and `exists() && delete()`.
- `Stages`: the stream stages.
- `Pipeline`: the three `execute` variants.
- `Scenarios` and `EndToEnd`: concrete runs.
- `Findings`: the defect described under "Findings".

Where the code and the behaviour its documentation describes disagree, the model follows the code:

- **Missing file at deletion.** Deleting a file that is already gone gives `false` in both variants (`deleteIfExists`, `exists() && …`). It is not counted as a success.
- **Unknown algorithm.** An unknown algorithm name aborts a run only when at least one file is hashed. It is not checked before traversal (`Pipeline.NewerUnknownAlgorithm`).
- **Root existence check.** Only the newer Java `execute` checks that roots exist. It does so at run time, not when the root is added. The older Java version walks a missing root, and the `isFile` filter then drops it (`Pipeline.MissingRootContributesNothing`). Kotlin's `walkTopDown` yields nothing for a missing root, and the result after its `isFile` filter is the same.
- **Files processed.** A size group of two or more files is hashed whether or not the files turn out to be equal. In a tree holding `a.jpg` and `sub/b.jpg` with one content, and `c.jpg` with another content of the same length, the newer run processes three files, not two. It deletes exactly one of `a.jpg` and `sub/b.jpg`: `sub/b.jpg` in the model's walk order (`EndToEnd.TreeRun`). Which one the source keeps depends on the order of `listFiles` and of the `HashSet` built by `toSet`.

## Model

| member | source | states |
|---|---|---|
| Paths.Parent | dedup-java/src/main/java/org/bongiorno/DeDup.java:30 | `getParentFile` is absent exactly for the filesystem root; otherwise it is a proper prefix one segment shorter |
| Paths.Child | dedup-java/src/main/java/org/bongiorno/DeDup.java:108-113 | an entry built from a directory and a listed name has that directory as parent and that name as name, and lies strictly below the directory |
| Roots.IsChild | dedup-java/src/main/java/org/bongiorno/DeDup.java:30 | the recursive `isChild` test; stated by `Roots.IsChildCovered` |
| Roots.IsChildCovered | dedup-java/src/main/java/org/bongiorno/DeDup.java:30 | walking the `getParentFile` chain finds a root exactly when some root is the path itself or one of its ancestors |
| Roots.AddRoot | dedup-java/src/main/java/org/bongiorno/DeDup.java:34 | a `--root` argument is appended exactly when neither it nor any ancestor is already a root; otherwise the roots are unchanged |
| Roots.AddRoots | src/main/java/org/bongiorno/DeDup.java:35 | processing the arguments in order keeps earlier roots as a prefix and adds only arguments; afterwards every argument is covered by some root, and no root lies at or below one accepted before it |
| Roots.AddRootStep | src/main/java/org/bongiorno/DeDup.java:35 | one argument keeps the roots as a prefix, leaves the argument covered, and preserves "no root at or below an earlier one" |
| Roots.Normalize | dedup-java/src/main/java/org/bongiorno/DeDup.java:45-47 | the roots of one command line are all arguments, cover every argument, and none lies at or below an earlier one |
| Scenarios.RootOrderMatters | dedup-java/src/main/java/org/bongiorno/DeDup.java:34 | the rule looks only upward: an ancestor given first absorbs its descendant, but a descendant given first keeps its place and the ancestor is added after it |
| Filters.Extension | dedup-kotlin/src/main/kotlin/com/example/demo/DemoApplication.kt:13 | `File.extension` is the dot-free suffix after the last '.'; it is empty exactly when there is no '.' or the name ends in '.' |
| Filters.DottedTypesNeverMatch | dedup-kotlin/src/main/kotlin/com/example/demo/DemoApplication.kt:13 | a configured type containing a '.' (such as ".jpg") never equals an extension, so it selects nothing in the Kotlin filter |
| Filters.SuffixMatch | dedup-java/src/main/java/org/bongiorno/DeDup.java:67 | the Java name filter, some type is a suffix of the name; stated by `Scenarios.ExactMatching` and `Filters.NoTypesNoMatch` |
| Walker.Accepts | dedup-java/src/main/java/org/bongiorno/DeDup.java:67 | the `FileFilter`: directories pass, other entries by name; stated by `Walker.Entries` and `Walker.WalkReaches` |
| Filters.ExtensionMatch | dedup-kotlin/src/main/kotlin/com/example/demo/DemoApplication.kt:13 | the Kotlin filter `fileTypes.contains(it.extension)`; stated by `Filters.DottedTypesNeverMatch` and `Scenarios.ExactMatching` |
| Scenarios.ExactMatching | dedup-java/src/main/java/org/bongiorno/DeDup.java:67 | the suffix match is case-sensitive, and the Kotlin extension match wants "jpg" where the Java suffix match wants ".jpg" |
| Walker.Walk | dedup-java/src/main/java/org/bongiorno/DeDup.java:108-119 | `getFiles` emits only non-directories at or below the start, with accepted names below it; a non-directory start is emitted itself; a `null` listing emits nothing |
| Walker.Entries | dedup-java/src/main/java/org/bongiorno/DeDup.java:110-114 | the loop over a listing emits only strict descendants with accepted names, and includes every listed non-directory whose name is accepted |
| Walker.WalkReaches | src/main/java/org/bongiorno/DeDup.java:104-115 | the walk emits a path exactly when it is reached from the start through listed entries, is not a directory, and (below the start) has an accepted name |
| Walker.WalkRoots | dedup-java/src/main/java/org/bongiorno/DeDup.java:72 | walking the roots in turn emits only non-directories below some root |
| Walker.WalkRootsReaches | src/main/java/org/bongiorno/DeDup.java:72 | walking the roots emits exactly what some root reaches |
| Grouping.GroupBy | dedup-java/src/main/java/org/bongiorno/DeDup.java:82 | `groupingBy` yields buckets with distinct keys, none empty. The bucket for each key is exactly the items with that key, in encounter order. Together the buckets hold every item as often as it occurs, and distinct items stay distinct |
| Grouping.InsertStep | dedup-java/src/main/java/org/bongiorno/DeDup.java:82 | adding one keyed item to a correct grouping of the items before it gives a correct grouping of all of them |
| Grouping.Duplicated | dedup-java/src/main/java/org/bongiorno/DeDup.java:85 | the `size() > 1` filter keeps exactly the buckets with more than one member |
| Grouping.SurvivorsAndAttempts | src/main/java/org/bongiorno/DeDup.java:78 | keeping each bucket's first member and attempting `subList(1, size)` splits the buckets exactly; a bucket of N members yields N - 1 attempts |
| Grouping.Attempts | dedup-java/src/main/java/org/bongiorno/DeDup.java:85 | `subList(1, size)` of every group, in group order; stated by `Grouping.SurvivorsAndAttempts` and `Grouping.AttemptsMember` |
| Grouping.AttemptsMember | src/main/java/org/bongiorno/DeDup.java:78 | an item is attempted exactly when it sits at a non-first position of some bucket |
| Grouping.AttemptsSafe | src/main/java/org/bongiorno/DeDup.java:78-79 | when no item occurs twice, no item is attempted twice and no bucket's first member is attempted |
| Grouping.DuplicatedAttempts | dedup-java/src/main/java/org/bongiorno/DeDup.java:84-85 | dropping single-member buckets first attempts exactly the same items in the same order |
| Grouping.InFlatten | dedup-java/src/main/java/org/bongiorno/DeDup.java:77 | an item is in the flattened buckets exactly when it is in one of them |
| HexFormat.Hex | dedup-java/src/main/java/org/bongiorno/DeDup.java:139-140 | the rendering has two lower-case hex characters per digest byte |
| HexFormat.UnhexHex | dedup-java/src/main/java/org/bongiorno/DeDup.java:135-142 | the rendering can be read back to the digest bytes |
| HexFormat.HexInjective | dedup-kotlin/src/main/kotlin/com/example/demo/DemoApplication.kt:28 | two digests render to the same string exactly when they are equal |
| Hashing.DigestStream | dedup-java/src/main/java/org/bongiorno/DeDup.java:121-143 | the read loop hands the algorithm non-empty chunks of at most 1024 bytes that concatenate to the whole content, and renders the digest of exactly that content |
| Hashing.DigestBytewise | dedup-kotlin/src/main/kotlin/com/example/demo/DemoApplication.kt:23-28 | the Kotlin loop updates once per byte and renders the digest of the whole content |
| Hashing.FileDigest | dedup-java/src/main/java/org/bongiorno/DeDup.java:121-150 | hashing a file succeeds exactly when it opens, reads and the algorithm is known. Java reports a file that does not open before an unknown algorithm, and an unknown algorithm before a failing read; Kotlin reports an unknown algorithm first. A digest string is twice as long as the digest |
| Hashing.SameDigestString | dedup-java/src/main/java/org/bongiorno/DeDup.java:82 | two files land in one hash group exactly when the algorithm gives their contents the same digest |
| Hashing.HashFile | src/main/java/org/bongiorno/DeDup.java:117-146 | the Java `hash(File)` computes the per-file digest, with the stream opened before the algorithm is looked up and read only after it |
| Hashing.HashFileBytewise | dedup-kotlin/src/main/kotlin/com/example/demo/DemoApplication.kt:22-31 | the Kotlin `hash` computes the per-file digest, with the algorithm looked up before the file is read |
| Deletion.DeleteIfExists | dedup-java/src/main/java/org/bongiorno/DeDup.java:98-106 | `Files.deleteIfExists` with `IOException` read as false; stated by `Deletion.DeleteRulesAgree` |
| Deletion.ExistsAndDelete | dedup-kotlin/src/main/kotlin/com/example/demo/DemoApplication.kt:18 | Kotlin `exists() && delete()`; stated by `Deletion.DeleteRulesAgree` |
| Deletion.DeleteRulesAgree | dedup-java/src/main/java/org/bongiorno/DeDup.java:98-106 | `deleteIfExists` with `IOException` read as false and Kotlin's `exists() && delete()` agree: true exactly when the file existed and was removable, and then only it is gone |
| Deletion.DeleteAll | dedup-java/src/main/java/org/bongiorno/DeDup.java:86 | every attempt lands in exactly one outcome bucket. The deleted ones are exactly the removable attempts, each once. Exactly those disappear, every other node is unchanged, and no attempted file is still removable |
| Deletion.DeleteAllAgain | src/main/java/org/bongiorno/DeDup.java:78-79 | repeating the elimination over the same attempts deletes nothing and changes nothing |
| Stages.ExistingRoots | dedup-java/src/main/java/org/bongiorno/DeDup.java:70-72 | the roots walked are exactly the given roots that exist |
| Stages.RegularFiles | src/main/java/org/bongiorno/DeDup.java:73 | `filter(File::isFile)` keeps exactly the regular files, each as often as it occurred |
| Stages.KotlinSelect | dedup-kotlin/src/main/kotlin/com/example/demo/DemoApplication.kt:13 | the Kotlin filters keep exactly the regular files whose extension is a configured type |
| Stages.SizeBucket | src/main/java/org/bongiorno/DeDup.java:73 | the length bucket for n is exactly the discovered files of length n, in order |
| Stages.Dedup | dedup-java/src/main/java/org/bongiorno/DeDup.java:77 | `toSet` keeps every item once and nothing else |
| Stages.SizeGate | dedup-java/src/main/java/org/bongiorno/DeDup.java:74-78 | the possible duplicates are exactly the regular files whose length is shared with another discovered occurrence, each once (with nested roots a file listed twice passes on its own) |
| Stages.HashAll | dedup-java/src/main/java/org/bongiorno/DeDup.java:82 | hashing succeeds exactly when every file hashes. It then pairs each file, in order, with its digest; otherwise it reports one file's error |
| Pipeline.Eliminate | dedup-java/src/main/java/org/bongiorno/DeDup.java:84-86 | the hash groups are the digest grouping, the attempts are every group's non-first members, and the outcome is the elimination of those attempts |
| Pipeline.Run.FilesProcessed | dedup-java/src/main/java/org/bongiorno/DeDup.java:50 | the printed "files processed": every file in the hash groups; stated by `Pipeline.EliminateCounts` |
| Pipeline.Run.FilesDeleted | dedup-java/src/main/java/org/bongiorno/DeDup.java:51 | the printed "files deleted": the TRUE bucket; stated by `Deletion.DeleteAll` |
| Pipeline.EliminateCounts | dedup-java/src/main/java/org/bongiorno/DeDup.java:50-51 | "files processed" equals the number of hashed files, and the attempts number that minus the number of groups |
| Pipeline.EliminateKeepsSurvivors | dedup-java/src/main/java/org/bongiorno/DeDup.java:84-86 | with no file hashed twice, no file is attempted twice, and each group's first member is never attempted or deleted and stays as it was |
| Pipeline.EliminateEffects | dedup-java/src/main/java/org/bongiorno/DeDup.java:84-86 | with no file hashed twice, only hashed non-first members are attempted. The deleted files are exactly the removable attempts, and nothing else in the filesystem changes |
| Pipeline.HashAndEliminate | src/main/java/org/bongiorno/DeDup.java:75-79 | a run succeeds exactly when every file hashes, and any failure names one file's error. On success it processes every file, and a group of N files yields N - 1 attempts |
| Pipeline.GroupsShareLength | dedup-java/src/main/java/org/bongiorno/DeDup.java:74-86 | with an algorithm that has no collisions, the members of one hash group have the same content and so the same length; files of different lengths never share a group |
| Pipeline.GroupsShareDigest | dedup-java/src/main/java/org/bongiorno/DeDup.java:82 | every member of a hash group is a hashed file whose digest is the group's key |
| Pipeline.EveryDigestKeepsACopy | dedup-java/src/main/java/org/bongiorno/DeDup.java:84-86 | with no file listed twice, every hashed file still has an untouched copy with its digest among the hashed files |
| Pipeline.NewerFiles | dedup-java/src/main/java/org/bongiorno/DeDup.java:69-72 | the newer discovery finds only non-directories below some existing root |
| Pipeline.NewerCandidates | dedup-java/src/main/java/org/bongiorno/DeDup.java:74-78 | the newer candidates are distinct: exactly the discovered regular files whose length is shared |
| Pipeline.NewerExecute | dedup-java/src/main/java/org/bongiorno/DeDup.java:65-87 | the newer run succeeds exactly when every candidate hashes, and then processes exactly the candidates |
| Pipeline.NewerExecuteEffects | dedup-java/src/main/java/org/bongiorno/DeDup.java:84-86 | a newer run attempts only candidates, none twice and never a group's first member. It deletes exactly the removable attempts and changes nothing else |
| Pipeline.NewerKeepsACopy | dedup-java/src/main/java/org/bongiorno/DeDup.java:65-87 | after a newer run every candidate still has an untouched candidate copy with its digest |
| Pipeline.NewerUnknownAlgorithm | dedup-java/src/main/java/org/bongiorno/DeDup.java:125 | with an unknown algorithm the newer run fails exactly when there is a candidate to hash |
| Pipeline.OlderFiles | src/main/java/org/bongiorno/DeDup.java:71-73 | the older discovery finds only regular files below some root |
| Pipeline.SizeOrder | src/main/java/org/bongiorno/DeDup.java:73-75 | flattening the length groups reorders the files and nothing else: same items, same counts |
| Pipeline.OlderExecute | src/main/java/org/bongiorno/DeDup.java:66-83 | the older run succeeds exactly when every discovered file hashes, and then processes every discovered occurrence |
| Pipeline.MissingRootContributesNothing | src/main/java/org/bongiorno/DeDup.java:72-73 | a missing root is emitted by the walk and dropped by the `isFile` filter |
| Pipeline.OlderExecuteDistinct | src/main/java/org/bongiorno/DeDup.java:66-83 | the corrected older run succeeds exactly when every discovered file hashes |
| Pipeline.OlderDistinctKeepsSurvivors | src/main/java/org/bongiorno/DeDup.java:78-79 | the corrected older run attempts nothing twice and never deletes a group's first member |
| Pipeline.OlderDistinctKeepsACopy | src/main/java/org/bongiorno/DeDup.java:66-83 | after the corrected older run every discovered file still has an untouched discovered copy with its digest |
| Pipeline.KotlinFiles | dedup-kotlin/src/main/kotlin/com/example/demo/DemoApplication.kt:12-14 | the Kotlin discovery finds only regular files whose extension is a configured type |
| Pipeline.KotlinExecute | dedup-kotlin/src/main/kotlin/com/example/demo/DemoApplication.kt:11-20 | the Kotlin run succeeds exactly when every discovered file hashes. A group of N files then yields N - 1 attempts |
| Pipeline.KotlinExecuteDistinct | dedup-kotlin/src/main/kotlin/com/example/demo/DemoApplication.kt:11-20 | the corrected Kotlin run succeeds exactly when every discovered file hashes |
| Pipeline.KotlinDistinctKeepsSurvivors | dedup-kotlin/src/main/kotlin/com/example/demo/DemoApplication.kt:18 | the corrected Kotlin run attempts nothing twice and never deletes a group's first member |
| Pipeline.KotlinDistinctKeepsACopy | dedup-kotlin/src/main/kotlin/com/example/demo/DemoApplication.kt:11-20 | after the corrected Kotlin run every discovered file still has an untouched discovered copy with its digest |
| Findings.OlderDeletesOnlyCopy | src/main/java/org/bongiorno/DeDup.java:66-83 | roots given as "inner, then outer" pass the `--root` rule. The only discovered file is then found twice, and the run deletes it |
| Findings.KotlinDeletesOnlyCopy | dedup-kotlin/src/main/kotlin/com/example/demo/DemoApplication.kt:11-20 | with nested roots the only discovered file is found twice and the run deletes it |
| EndToEnd.TreeRun | dedup-java/src/main/java/org/bongiorno/DeDup.java:65-87 | on a tree with two equal files and a third of the same length, the newer run processes three files, deletes the second equal one only, and leaves the rest as they were |
| EndToEnd.EmptyRootRun | dedup-java/src/main/java/org/bongiorno/DeDup.java:65-87 | a run over an empty root directory processes nothing, deletes nothing and changes nothing |

## Left out

- **Command line** (`main`, the `CMDS` table, the argument loop, `--type`, `--hash`, `--help`/`exitHelp`, `System.exit`, all printing): the model starts from a parsed `Config`. The printed counts are `Run.FilesProcessed` and `Run.FilesDeleted`.
- **Accessors and constructors:** the getters, the constructors and the fields `sizes`/`deleted` are plain state holders.
- **Kotlin `main`:** it only builds a `DeDup` with no roots. Its default types ".jpg" and ".gif" could never match an extension (`Filters.DottedTypesNeverMatch`).
- **The Ruby script:** it is a separate tool and is not part of this model.
- **`parallelStream` concurrency:** the streams are evaluated in order. Each deletion touches only its own file, and every hash completes before any deletion starts, so the outcome does not depend on the interleaving.
- **Iteration order of `HashSet`/`HashMap`:**
  - The order of roots, of size groups and of hash groups is taken as given or first-encounter order.
  - The general properties hold for any order (multiset and membership statements).
  - Which member of a hash group survives does depend on this order, and so do the concrete outcomes `EndToEnd.TreeRun` and `EndToEnd.EliminateOfThree` (`deleted` is the later equal file in the model's walk order).
- **Order of `listFiles`:** the order is whatever the directory's listing in the filesystem value says.
- **Paths:**
  - `File` equality is modelled as equality of segment lists. Relative paths, "..", trailing separators and links are not modelled.
  - Two paths to the same file (hard links) count as two files.
- **`MessageDigest`:**
  - An algorithm is an arbitrary function from bytes to bytes, and its name is looked up exactly as given.
  - Collisions are not excluded. The code groups every candidate by digest across all size groups, so a collision puts files of different lengths or contents in one group, and all but one of them are deleted. `Pipeline.GroupsShareLength` states the length and content guarantee under the assumption that the algorithm has no collisions.
  - Java and Kotlin format a negative `byte` with `%02x` as its unsigned value, so bytes are modelled as 0..255.
- **Kotlin `RuntimeException("Something went wrong")`:** it follows a `null` from `getInstance`, which never returns `null`, so the branch is not modelled.
- **Exceptions in the middle of hashing:** the `RuntimeException` from a failed hash is the `Err` result of the whole run. Digests already computed by other threads are discarded, as in the source.
- **Filesystem changes during a run:** the filesystem value is fixed while discovering and hashing. Deletion is the only transition.
- **Hashing.DigestStream:** it fixes the chunk sizes to full 1024-byte buffers with a shorter last one. A real `InputStream.read` may return any positive count up to 1024. The digest is the same for every split, because the algorithm sees the concatenation.
- **Deletion.DeleteAll:** deleting removes only the file's own entry; the parent directory's listing still names it. Nothing is walked after the deletions, so no result depends on the stale listing, and "every other node is unchanged" holds in that sense.
- **Deletion.DeleteIfExists:** an existing empty directory or special file gives false, where `Files.deleteIfExists` would delete it. The pipeline only attempts files that passed the `isFile` filter, so this case never arises.
- **Walker.Walk:** termination is proved over the finite set of existing paths. A listing that names entries the filesystem does not hold reaches them as non-directories, which matches `isDirectory` on a missing file. It stands in for Kotlin's `walkTopDown` only after the `isFile` filter: `walkTopDown` also yields every directory it enters, the start included, and yields nothing for a start that does not exist, while `Walk` yields no directory and yields a missing start itself. `Pipeline.KotlinFiles` applies `isFile` to the walk, so the files it finds are the same.

## Findings

| source | as written | input that shows it | evidently intended | confidence | as-written member | corrected member |
|---|---|---|---|---|---|---|
| src/main/java/org/bongiorno/DeDup.java:66-83 | The `--root` rule only looks upward, so a descendant given before its ancestor keeps its place. Both roots are then walked and every occurrence is hashed. A file below both roots is listed twice, forms a hash group with itself, and its second occurrence is deleted | `--root /a/b --root /a`, where `/a/b/x.jpg` is the only file | each discovered file is hashed once (the newer version's `toSet`), so every content keeps a copy | high (not executed) | Findings.OlderDeletesOnlyCopy | Pipeline.OlderDistinctKeepsACopy |
| dedup-kotlin/src/main/kotlin/com/example/demo/DemoApplication.kt:11-20 | Every root of the set is walked with no overlap check, so with nested roots a file below both is listed twice, forms a hash group with itself, and is deleted | roots `{/a, /a/b}` and types `{"jpg"}`, where `/a/b/x.jpg` is the only file | each discovered file is hashed once, so every content keeps a copy | high (not executed) | Findings.KotlinDeletesOnlyCopy | Pipeline.KotlinDistinctKeepsACopy |
