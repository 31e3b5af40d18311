# lslrkt scanner core in Dafny

`lslrkt` walks a directory tree and writes one record per entry. Each record holds:

- a base-36 record tag;
- a two-letter type code;
- nine permission bits;
- the modification time and the size;
- a TAB, then the absolute path with the link target.

Records go to a raw file in scan order. They also go to sorted cartons of 4096 records, which are spilled to numbered carton files and finally merged into one file sorted by path. The output files are named after a tag computed from the scanned directory.

This project models the core of `src/main/kotlin/FSystemScanner.kt` as pure functions over immutable data, one module per piece:

| module | models |
|---|---|
| `RecordNumber` | the tag counter, with `Radix` for `Long.toString(radix)` and the zero padding |
| `FSysNode` | the rendered fields of one entry: permission bits, type code, link suffix and `flatView` |
| `Fields` | `split` on a separator, and the merge key: the text after the last TAB |
| `Lex`, `TreeMap` | `String.compareTo`, which orders strings by their UTF-16 code units, and the `TreeMap<String, _>` behind the carton and the shelf |
| `Recorder` | `FSysRecorder`: `write`, `dumpCarton` and `finalize` |
| `Cupboard` | the k-way merge: `processNextEntry` and `mergeTheCartons` |
| `Stack`, `Traversal` | the directory stack and the main loop of `FSystemScan` |
| `TopNodeTag` | `transformTopNodeString`, its six `fix*` rewrites, and the trim of the command-line arguments |

The process-wide singletons are explicit state passed from step to step:

- `RecordNumber` is a `Counter`.
- `Cupboard.shelf` lives in a `Cupboard` value.
- `SubTree.ok2Traverse` is the `visited` map of a `Walk`.

The filesystem is an input: a map from directory path to its `Listing`. Attribute reads, `toRealPath` and the formatted modification time are fields of a `Node` supplied by the caller. A file is a sequence of lines. The recorder keeps each line with the absolute path it was filed under.

## Model

| member | source | states |
|---|---|---|
| RecordNumber.Update | src/main/kotlin/FSystemScanner.kt:37-54 | `update` issues a tag of at least five characters that reads back in base 36 as the current count. The tally then goes up by exactly one, and `request` afterwards returns the tag just issued. |
| RecordNumber.TagDecodes | src/main/kotlin/FSystemScanner.kt:41-42 | A tag is the base-36 digits of its count behind a run of `0`s. It is at least five characters and never truncated, every character is a base-36 digit, and it reads back as the count. |
| RecordNumber.TagInjective | src/main/kotlin/FSystemScanner.kt:39-46 | Two counts with the same tag are equal, so no two records share a tag. |
| RecordNumber.TagFixedWidth | src/main/kotlin/FSystemScanner.kt:41-42 | The first 36^5 tags are exactly five characters wide. |
| Radix.ToRadix | src/main/kotlin/FSystemScanner.kt:41 | `toString(radix)` gives canonical digits: nonempty, all digits of the radix, and no leading `0` except for zero itself. |
| Radix.FromToRadix | src/main/kotlin/FSystemScanner.kt:41 | Reading back the digits of `n` gives `n`. |
| Radix.ToFromRadix | src/main/kotlin/FSystemScanner.kt:41 | Canonical digits are the digits of the number they read as. |
| Radix.ToRadixInjective | src/main/kotlin/FSystemScanner.kt:41 | Distinct numbers have distinct digits. |
| Radix.PadLeftZeros | src/main/kotlin/FSystemScanner.kt:42 | Left padding only puts `0`s in front of the text. |
| Radix.LeadingZeros | src/main/kotlin/FSystemScanner.kt:42 | Leading `0`s do not change the value read back. |
| Stack.Push | src/main/kotlin/FSystemScanner.kt:61-64 | `push` adds one element. |
| Stack.Pop | src/main/kotlin/FSystemScanner.kt:67-74 | `pop` returns null exactly on an empty stack and then leaves it as it was; otherwise it removes one element. |
| Stack.PopPush | src/main/kotlin/FSystemScanner.kt:57-76 | Last in, first out: a pop right after a push returns the pushed element and the stack as it was. |
| Stack.PushPop | src/main/kotlin/FSystemScanner.kt:57-76 | Pushing back what a pop returned restores the stack. |
| Stack.PopKeeps | src/main/kotlin/FSystemScanner.kt:67-74 | A pop returns the last element and keeps every other one in its place. |
| FSysNode.PermBitString | src/main/kotlin/FSystemScanner.kt:404-427 | The permission field is nine characters of `0`/`1`, in owner, group, others r/w/x order. Position `i` is `1` exactly when that permission is granted. |
| FSysNode.PermBitStringBinary | src/main/kotlin/FSystemScanner.kt:404-412 | The field is what the code computes: the binary text of the sentinel `0b1000000000` or'ed with each granted mask, with the sentinel digit dropped. |
| FSysNode.PermBitsBinary | src/main/kotlin/FSystemScanner.kt:404-412 | The binary text of the or'ed mask is `1` followed by one digit per permission in `bitMap` order. |
| FSysNode.TypeCode | src/main/kotlin/FSystemScanner.kt:434-461 | The type code is two capital letters. It starts with `L` exactly for a link, followed by the letter of the link-following attributes; otherwise it is `X` and the entry's own letter, which is then never `L`. |
| FSysNode.RealPath | src/main/kotlin/FSystemScanner.kt:387-392 | The link suffix is empty exactly when the entry is not a link. |
| FSysNode.SizeField | src/main/kotlin/FSystemScanner.kt:481-490 | `%010d` gives at least ten decimal digits. |
| FSysNode.SizeFieldValue | src/main/kotlin/FSystemScanner.kt:481-490 | The size field reads back as the size. |
| FSysNode.FlatViewFields | src/main/kotlin/FSystemScanner.kt:480-494 | Before its first TAB, a record splits on `^A` into exactly the tag, type code, permission bits, time and size, and the size field reads back as the size. This needs the tag and the time to hold no separator. |
| FSysNode.FlatViewMergeKey | src/main/kotlin/FSystemScanner.kt:480-494 | The text after a record's last TAB is the absolute path followed by the link suffix, when these hold no TAB. |
| Fields.Split | src/main/kotlin/FSystemScanner.kt:202 | `split` gives at least one piece, none holding the separator, and the pieces joined by the separator give back the text. |
| Fields.SplitJoin | src/main/kotlin/FSystemScanner.kt:202 | Splitting undoes joining when no piece holds the separator. |
| Fields.MergeKey | src/main/kotlin/FSystemScanner.kt:202 | `split(Str.tab).last()` holds no TAB and is a suffix of the line. It is the whole line or is preceded by a TAB. |
| Fields.MergeKeyAfterTab | src/main/kotlin/FSystemScanner.kt:302 | The merge key of `a TAB b`, with `b` free of TABs, is `b`. |
| Lex.Trichotomy | src/main/kotlin/FSystemScanner.kt:138 | `compareTo` on two strings gives exactly one of less, equal or greater. The order compares UTF-16 code units, so a character above U+FFFF sorts as its surrogate pair. |
| Lex.Transitive | src/main/kotlin/FSystemScanner.kt:164 | The UTF-16 code-unit order of `compareTo` is transitive. |
| Lex.Antisymmetric | src/main/kotlin/FSystemScanner.kt:164 | Two strings each at most the other are equal. This needs the UTF-16 encoding to be injective, which `Lex.Utf16Injective` proves. |
| Lex.SurrogatesFirst | src/main/kotlin/FSystemScanner.kt:138 | U+1F600 sorts before U+FF01 although it is the larger code point, as `compareTo` orders them. |
| TreeMap.Put | src/main/kotlin/FSystemScanner.kt:214 | `map[k] = v` keeps the keys strictly ascending and adds `k` to the keys. It grows the map by one exactly when `k` was new. |
| TreeMap.PutGet | src/main/kotlin/FSystemScanner.kt:214 | After `map[k] = v`, `k` maps to `v` (the last write wins) and every other key is unchanged. |
| TreeMap.PutMembers | src/main/kotlin/FSystemScanner.kt:303 | After `map[k] = v` the map holds `(k, v)` and old pairs only. Every old pair under another key is kept. |
| TreeMap.Remove | src/main/kotlin/FSystemScanner.kt:299 | `remove(k)` keeps the keys ascending, takes out `k`, and shrinks the map by one exactly when `k` was present. |
| TreeMap.RemoveGet | src/main/kotlin/FSystemScanner.kt:299 | After `remove(k)`, `k` maps to null and every other key is unchanged. |
| TreeMap.FirstIsMin | src/main/kotlin/FSystemScanner.kt:276 | `keys.min()` is the first key, and removing it leaves the rest. |
| TreeMap.LastIsMax | src/main/kotlin/FSystemScanner.kt:252 | `keys.last()` is above every other key. |
| Recorder.Stow | src/main/kotlin/FSystemScanner.kt:211-214 | The line is appended to the raw file, and the carton afterwards maps the path to this line, whatever it held before. |
| Recorder.FileLine | src/main/kotlin/FSystemScanner.kt:211-218 | Appends exactly one line to the raw file and keeps the carton and the shelf ordered. |
| Recorder.Write | src/main/kotlin/FSystemScanner.kt:211-218 | `write` appends exactly the entry's line, rendered under the next tag, to the raw file. It advances the tally by one. |
| Recorder.WriteAllRaw | src/main/kotlin/FSystemScanner.kt:211-213 | After a run of writes, the raw file gains the entries in order, entry `i` rendered under the tag of count `t + i`. |
| Recorder.RawLinesAt | src/main/kotlin/FSystemScanner.kt:211-213 | Line `i` of the run is entry `i` under the tag of count `t + i`. |
| Recorder.DumpCarton | src/main/kotlin/FSystemScanner.kt:169-209 | `dumpCarton` empties the carton and advances the carton number. The shelf, counting displaced boxes, gains exactly the carton's lines and that carton's number. |
| Recorder.DumpKeepsFiled | src/main/kotlin/FSystemScanner.kt:169-209 | Under the path key, a dump keeps the recorder invariant. Every raw line is in the carton or on the shelf exactly once, every box is sorted, and the shelf holds carton files `1 .. n`. |
| Recorder.WriteKeepsValid | src/main/kotlin/FSystemScanner.kt:211-218 | A write of a new path keeps the invariant, including that the carton holds fewer than `cartonLimit` entries after every write. |
| Recorder.WriteAllValid | src/main/kotlin/FSystemScanner.kt:211-218 | So does any run of writes of distinct new paths. |
| Recorder.FileLineBound | src/main/kotlin/FSystemScanner.kt:211-218 | For any key rule and any path, repeated or new: a carton below `cartonLimit` stays below it after filing a line. A carton file is spilled, advancing `cartonCount` by one, exactly when the line brings the carton to the limit; otherwise `cartonCount` is unchanged. |
| Recorder.CartonBound | src/main/kotlin/FSystemScanner.kt:211-218 | For any key rule and any path, `write` keeps the carton below `cartonLimit`. |
| Recorder.WriteAllBound | src/main/kotlin/FSystemScanner.kt:211-218 | For any key rule and any paths, a run of writes keeps the carton below `cartonLimit`. |
| Recorder.InitValid | src/main/kotlin/FSystemScanner.kt:161-164 | A fresh recorder satisfies the invariant. |
| Recorder.CloseCarton | src/main/kotlin/FSystemScanner.kt:220-225 | `finalize` spills a nonempty carton onto the shelf and leaves an empty carton untouched. |
| Recorder.CloseKeepsFiled | src/main/kotlin/FSystemScanner.kt:220-225 | After that spill every raw line is on the shelf, and the shelf holds every carton file written. |
| Recorder.Finalize | src/main/kotlin/FSystemScanner.kt:220-229 | `finalize` fails exactly when both the carton and the shelf are empty. |
| Recorder.FinalizeComplete | src/main/kotlin/FSystemScanner.kt:220-308 | From the invariant, `finalize` fails exactly when nothing was written. Otherwise the output holds every raw line exactly once, sorted by path; no box is lost; and every carton file is deleted exactly once. |
| Recorder.RecorderComplete | src/main/kotlin/FSystemScanner.kt:126-308 | End to end, under the path key, for distinct paths: the raw file is the entries in scan order under tags `0, 1, ...`. The merged output is a permutation of the raw file sorted by path, with every carton file deleted once and no box lost. It is empty only when nothing was written. |
| Cupboard.Shelve | src/main/kotlin/FSystemScanner.kt:203-208 | `shelf[key] = box` files the box under its current line's key. A box already under that key becomes an orphan (the orphans stay unchanged exactly when the key was new). Lines and file numbers are conserved across shelf and orphans. |
| Cupboard.ShelveSorted | src/main/kotlin/FSystemScanner.kt:303 | Shelving a sorted box keeps every box filed under its current key. |
| Cupboard.ProcessNextEntry | src/main/kotlin/FSystemScanner.kt:275-309 | `processNextEntry` fails exactly on an empty shelf. Otherwise it writes the current line of the box with the least key and leaves the shelf at most one box smaller. |
| Cupboard.ProcessConserves | src/main/kotlin/FSystemScanner.kt:275-309 | One step creates and destroys no line and no file number, and leaves strictly fewer lines pending. |
| Cupboard.ProcessKeepsMerging | src/main/kotlin/FSystemScanner.kt:275-309 | On sorted boxes, one step keeps the output sorted and no pending line below it. |
| Cupboard.ProcessNoOrphan | src/main/kotlin/FSystemScanner.kt:299-303 | When no two pending lines share a key, re-shelving a box displaces no other box. |
| Cupboard.MergeLoop | src/main/kotlin/FSystemScanner.kt:249-251 | The loop conserves lines and file numbers, and ends with exactly one box left when the shelf was nonempty. |
| Cupboard.MergeLoopSorted | src/main/kotlin/FSystemScanner.kt:249-251 | The loop keeps the merge invariant. |
| Cupboard.MergeLoopNoOrphan | src/main/kotlin/FSystemScanner.kt:249-251 | With unique keys the loop orphans no box. |
| Cupboard.MergeTheCartons | src/main/kotlin/FSystemScanner.kt:246-273 | `mergeTheCartons` fails exactly on an empty shelf. Otherwise it only appends to the output. |
| Cupboard.MergeConserves | src/main/kotlin/FSystemScanner.kt:246-273 | Every line on the shelf is written or sits in an orphan, and every carton file is deleted or belongs to an orphan. |
| Cupboard.MergeSorted | src/main/kotlin/FSystemScanner.kt:246-273 | When every carton is sorted by the merge key, the output is sorted by it. |
| Cupboard.MergeComplete | src/main/kotlin/FSystemScanner.kt:246-309 | Sorted cartons with unique keys merge into a sorted output holding every line exactly once. No box is orphaned and every carton file is deleted exactly once. |
| Cupboard.TwoCartonMerge | src/main/kotlin/FSystemScanner.kt:246-309 | When carton 2's only line has a smaller key than carton 1's first line, it is written before both lines of carton 1. |
| Cupboard.LinkKeyMisorders | src/main/kotlin/FSystemScanner.kt:202 | Under the last-TAB-field key as written, there are two cartons, each in path order, whose merge is not in path order (see Findings). |
| Traversal.Enter | src/main/kotlin/FSystemScanner.kt:662-678 | An item whose node cannot be built is skipped. Otherwise the node is written, and a directory to descend ends up with a flag; flags are never removed. |
| Traversal.EnterAll | src/main/kotlin/FSystemScanner.kt:651-679 | A listing writes exactly its buildable entries, in listing order. |
| Traversal.EnterKeeps | src/main/kotlin/FSystemScanner.kt:668-673 | Each item keeps the walk invariant: the flag keys are exactly the listed and stacked inodes, each once, and stacked ones are `true`. Old flags are unchanged. Only the item's inode can become a key, and only a new directory to descend is pushed. |
| Traversal.EnterAllKeeps | src/main/kotlin/FSystemScanner.kt:651-679 | The same for a whole listing: only its descended directories are pushed, and only with new inodes. |
| Traversal.EnterAllMarks | src/main/kotlin/FSystemScanner.kt:668-673 | After a listing, every directory to descend it holds has a flag. |
| Traversal.StepKeeps | src/main/kotlin/FSystemScanner.kt:589-705 | One pass of `mainloop` keeps the loop invariants. The pair (unflagged inodes, stack height) decreases. |
| Traversal.WalkFrom | src/main/kotlin/FSystemScanner.kt:583-705 | The loop terminates. Directories are listed at most once by inode, the top first, and every other listed directory is a written directory to descend. Every directory to descend that was written gets listed. The records are the top node and then each listing's entries, in pop order. The final flag of a listed directory is `false` exactly when its listing went through. |
| Traversal.Scan | src/main/kotlin/FSystemScanner.kt:543-709 | The scan stops with an error exactly when the results directory, or else the top node, is not a directory. Otherwise it walks as `WalkFrom` states. |
| TopNodeTag.CollapseSeps | src/main/kotlin/FSystemScanner.kt:752-758 | `fixConsecutiveSlashes` empties only the empty string and keeps or slash-replaces the first character. |
| TopNodeTag.CollapseSepsReplace | src/main/kotlin/FSystemScanner.kt:752-758 | `fixConsecutiveSlashes` equals the regex replacement `ReplaceRuns`: each leftmost, longest run of separators becomes one `/`, and the text between runs is copied. |
| TopNodeTag.CollapseSepsShape | src/main/kotlin/FSystemScanner.kt:752-758 | Afterwards every separator is `/` and no two are neighbours. |
| TopNodeTag.CollapseSepsKeeps | src/main/kotlin/FSystemScanner.kt:752-758 | All other characters are kept, in order. |
| TopNodeTag.TrimTrailing | src/main/kotlin/FSystemScanner.kt:760-766 | `fixTrailingSlashes` gives a prefix of the string. It is one character shorter exactly when the string ends in a separator, and otherwise the whole string. |
| TopNodeTag.TrimTrailingKeeps | src/main/kotlin/FSystemScanner.kt:760-766 | It keeps every non-separator. |
| TopNodeTag.LeadingPeriod | src/main/kotlin/FSystemScanner.kt:768-774 | `fixLeadingPeriod` leaves no leading `.` and leaves the empty string alone. |
| TopNodeTag.LeadingSlash | src/main/kotlin/FSystemScanner.kt:776-782 | `fixLeadingSlash` leaves no leading separator and brings in no leading `.`. |
| TopNodeTag.AnySlashes | src/main/kotlin/FSystemScanner.kt:784-790 | `fixAnySlashes` keeps the length and leaves no separator. |
| TopNodeTag.AnySlashesKeeps | src/main/kotlin/FSystemScanner.kt:784-790 | It keeps every non-separator in place and puts a `.` in place of every separator. |
| TopNodeTag.CollapseDots | src/main/kotlin/FSystemScanner.kt:792-798 | `fixConsecutivePeriods` keeps the first character and leaves no `..`. |
| TopNodeTag.CollapseDotsReplace | src/main/kotlin/FSystemScanner.kt:792-798 | `fixConsecutivePeriods` equals the regex replacement `ReplaceRuns`: each leftmost, longest run of `.` becomes one `.`, and the text between runs is copied. |
| TopNodeTag.CollapseDotsKeeps | src/main/kotlin/FSystemScanner.kt:792-798 | It keeps every character other than `.`, in order. |
| TopNodeTag.CollapseDotsNoSeps | src/main/kotlin/FSystemScanner.kt:792-798 | It brings in no separator. |
| TopNodeTag.NormalizeClean | src/main/kotlin/FSystemScanner.kt:732-750 | Every tag has no separator, no `..` and no leading `.`. |
| TopNodeTag.NormalizeEmpty | src/main/kotlin/FSystemScanner.kt:732-750 | The tag is empty exactly when the argument is nothing but separators. |
| TopNodeTag.NormalizeFixed | src/main/kotlin/FSystemScanner.kt:732-750 | A clean string passes every rewrite unchanged. |
| TopNodeTag.NormalizeIdempotent | src/main/kotlin/FSystemScanner.kt:732-750 | A tag is its own tag. |
| TopNodeTag.ExampleSlashes | src/main/kotlin/FSystemScanner.kt:732-798 | For any words `a` and `b`, `/a//b/` becomes `slash.a.b`, under either reading of the separator class, including the code's. |
| TopNodeTag.ExampleDot | src/main/kotlin/FSystemScanner.kt:732-798 | For any word `w`, `./w` becomes `dot.w`, under either reading, including the code's. |
| TopNodeTag.ExampleUsrLocal | src/main/kotlin/FSystemScanner.kt:732-798 | As the code runs (`TransformAsWritten`), and under the other reading, `/usr//local/` becomes `slash.usr.local`. |
| TopNodeTag.ExampleFoo | src/main/kotlin/FSystemScanner.kt:732-798 | As the code runs, and under the other reading, `./foo` becomes `dot.foo`. |
| TopNodeTag.ExampleRoot | src/main/kotlin/FSystemScanner.kt:732-798 | As the code runs, and under the other reading, `/` becomes the empty tag. |
| TopNodeTag.TransformClean | src/main/kotlin/FSystemScanner.kt:732-798 | If the class also matches `\` (a reading of its spelling), the tag holds no `/`, no `\` and no `..`. |
| TopNodeTag.BackslashSurvives | src/main/kotlin/FSystemScanner.kt:755 | As the code runs, a string clean of `/` passes unchanged, backslashes included. |
| TopNodeTag.BackslashExample | src/main/kotlin/FSystemScanner.kt:24 | As the code runs, `a\b` keeps its backslash in the tag, although the class spells out `\` (see Findings). |
| TopNodeTag.TrimArg | src/main/kotlin/FSystemScanner.kt:519-535 | A trimmed argument is never empty. |
| TopNodeTag.TrimArgShape | src/main/kotlin/FSystemScanner.kt:519-535 | An argument loses at most one trailing separator. The fallback (`/` or `/tmp`) is used for an empty argument or a lone separator. |

## Left out

- Clocks: `FTStamp`, `TStamp`, and the formatting and time-zone conversion of `modTime`, which is an opaque string of the node.
- The host name, the output file names built from them, and `vfyWrtAccess` with the probe write and delete inside `dumpCarton`.
- File handles: `BufferedWriter`, `FileWriter`, `Scanner` and `Files.list`. Files are sequences of lines and a listing is a `Listing` value. A carton line is written and read back as the same line, which holds only for paths and link targets without a line terminator (see the `Recorder.RecorderComplete` line below).
- The trailing newline of each line: `write` appends `\n` and `nextLine` strips it.
- Logging, and the console progress message every `0x3FFFF` records.
- The null checks of `Paths.get(...).toFile()`, `toPath()`, `Files.list`, `iterator()` and `pop()`, and the null `BoxTop` lookups. The model's types rule them out, except the empty-shelf cases, which the Option results model.
- Exceptions other than a `FileSystemException` for one item (the item is skipped) and a failed listing (`complete` false). Anything else the code rethrows ends the program.
- `Log4j2Build.kt` (logging configuration) and `Entrypt.kt` (the command-line wrapper) are not part of this model.
- `closeAndDeleteCartonFile` is recorded only as the carton number appended to `deleted`.
- RecordNumber.Update: the count is unbounded; the 64-bit `Long` wrap-around after 2^63 records is not modelled.
- TopNodeTag.TrimTrailing: Java's `$` also matches just before a final line terminator; a string ending in a separator followed by a newline is not modelled.
- Traversal.WalkFrom: the popped directory's attributes are re-read in the code (`FSysNode(currentDirectory)`); the model uses the node as it was pushed, so its inode and path are those recorded at push time.
- Traversal.WalkFrom: listings are fixed, so a directory whose contents change during the walk is not modelled.
- Recorder.WriteKeepsValid: the full invariant `Valid` (every raw line in the carton or on the shelf exactly once, boxes filed under their path) is stated only under the path key and for a path not yet written. The carton bound and the spill condition hold for any key and any path, and `Recorder.FileLineBound`, `Recorder.CartonBound` and `Recorder.WriteAllBound` state them.
- Recorder.WriteAllValid: the same restriction to the path key and to distinct new paths. `Recorder.WriteAllBound` states the carton bound without it.
- Recorder.RecorderComplete: states the end-to-end result only for distinct absolute paths. A repeated path is modelled by `Stow` (the last write wins in the carton while the raw file keeps both lines) but not covered by the theorem.
- Recorder.RecorderComplete: assumes no path or link target holds a line terminator. The carton files are read back with `Scanner.nextLine` (`FSystemScanner.kt:201, 267, 301`), which also ends a line at `\r`, U+0085, U+2028 and U+2029. A path such as `/a` + newline + `b` would come back as two lines, and the merged file would then not be a permutation of the raw file. The model's files are sequences of whole lines, so this splitting is not modelled.
- Recorder.FinalizeComplete: states the result under the path key only. Under the last-TAB-field key, `Cupboard.MergeConserves` still holds, and `Cupboard.LinkKeyMisorders` shows how sorting fails.
- Recorder.Write: the renderer is a parameter. The code renders with `flatView`, modelled as `FSysNode.FlatView`, and the recorder's theorems hold for any renderer.

## Findings

| source | as written | input that shows it | evidently intended | confidence | as-written member | corrected member |
|---|---|---|---|---|---|---|
| src/main/kotlin/FSystemScanner.kt:755 | The class `[${Str.bkSlash}/]` becomes the regex `[\/]`, an escaped slash, so every `fix*` rewrite and the argument trim match `/` only. | The argument `a\b` gives the tag `a\b`, and its backslash goes into the output file names. | One reading: the class spells out both `\` and `/`, so the tag was meant to hold neither. This is an interpretation. The code runs on POSIX, where a backslash is an ordinary file-name character, and the `fix*` comments speak only of `/`, so `[\/]` may be a deliberately escaped slash. | not executed, low | TopNodeTag.BackslashExample | TopNodeTag.TransformClean |
| src/main/kotlin/FSystemScanner.kt:302 | The merge key is the text after the last TAB of the line. For a symbolic link that is the path followed by ` -> target`, but the cartons are sorted by absolute path. | Carton 1: a link `/a` to `/t` and a file `/a !`. Carton 2: a file `/a #`. The link's key `/a -> /t` sorts after `/a #`, so the output is `/a #`, `/a`, `/a !`: not in path order. | The merge key should be the absolute path the carton is sorted by. The output is then a sorted permutation of the raw file. | not executed | Cupboard.LinkKeyMisorders | Recorder.RecorderComplete |
