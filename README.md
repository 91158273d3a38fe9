# Workspace-storage cleaner: a verified model

This project models the scan, classification and reclaim logic of a small Python utility. The utility cleans a code editor's `workspaceStorage` directory. Each entry of that directory holds a `workspace.json` manifest whose `folder` URI names a workspace. The script does the following:
- reads every manifest;
- marks an entry *old* when it has not been modified for more than 30 whole days;
- marks an entry *orphaned* when the workspace directory it names no longer exists;
- totals the bytes those entries take;
- after the user confirms, removes them one by one with `shutil.rmtree`.

There are two revisions of the script. `workspaceStorage_cleaner.py` is the reference. `main.py` differs in two ways:
- its `isValidWSSPath` raises on an existing path that is not a directory;
- it announces the number of folders once before the removal loop.

The disk is a value of the datatype `FileSystem.Node`: a regular file with its length and the parse of its text, a directory with its modification time and its ordered entries, or any other kind of entry. Sequence order stands for `iterdir`/`listdir` order. The modules are:
- `Seqs`: order-preserving filter, positions and sums;
- `FileSystem`: the tree, paths, and `getSizeOfFolder` as the method `SizeOfFolder`, proved against the function `Size`;
- `Uri`: the percent-decoding done by `unquote`;
- `Scanner`: `parseWSSFolder` as the method `ParseWSSFolder`, proved against the function `Scan`;
- `Validity`: both revisions of `isValidWSSPath`;
- `Planner`: the unwanted filter, the byte totals, and the checks in `main` before anything is removed;
- `Reclaimer`: a `Storage` object that owns the root's entry list. Its `Reclaim` method runs the removal loop and `Run` runs `main` from the scan on. Both are proved against the function `Process`.

Behaviour of the code that a reader might not expect:
- A missing or malformed `workspace.json` raises out of the scan and ends the run; the entry is not skipped.
- An entry is old only once `timedelta.days > 30`, that is after at least 31 whole days. Thirty days and one second is not old.
- The validity check asks for a `workspace.json` inside every entry of the root, regular files included, not only inside directories.
- The path the user may type in is discarded by `main`, so the scan always runs on the default root.
- The root is an absolute path, as the default root is. `isValidWSSPath` joins the root with each path `iterdir` returns, and those paths already start with the root. For an absolute root, `Path` keeps the second operand, so the model looks for `workspace.json` at `JoinPath(root, name)`. A relative root would repeat itself in that join; that case is not modelled.

## Model

| member | source | states |
|---|---|---|
| FileSystem.SizeOfFolder | workspaceStorage_cleaner.py:150-166 | the loop that adds file lengths and recurses into subdirectories returns `Size` of the directory: files count their length, directories their contents, other entries 0 |
| FileSystem.Size | workspaceStorage_cleaner.py:150-166 | the value of `getSizeOfFolder`: a file counts its length, a directory the sizes of its entries, any other entry 0 |
| FileSystem.ChildrenSize | workspaceStorage_cleaner.py:160-166 | the sizes of a directory's entries, added in listing order |
| FileSystem.ChildrenSizeIsSum | workspaceStorage_cleaner.py:160-166 | a directory's size is the sum of its entries' sizes |
| FileSystem.ChildrenSizeAppend | main.py:163-170 | sizes add up over any split of a directory's entries |
| FileSystem.ChildSizeBound | workspaceStorage_cleaner.py:164-165 | no entry is larger than the directory that holds it |
| FileSystem.Lookup | workspaceStorage_cleaner.py:97 | resolving `dir / name` finds an entry of that name exactly when one exists |
| FileSystem.JoinPath | workspaceStorage_cleaner.py:178 | an entry's path is the root, a separator, and the entry's name |
| FileSystem.JoinPathInjective | workspaceStorage_cleaner.py:178 | two entries of one directory get the same path only if they have the same name |
| FileSystem.BaseName | workspaceStorage_cleaner.py:256 | the displayed name holds no separator and is no longer than the path |
| FileSystem.BaseNameOfJoin | main.py:255 | the name shown while removing an entry is the entry's own name |
| Uri.HexValue | workspaceStorage_cleaner.py:189 | a hexadecimal digit has a value below 16 |
| Uri.HexDigit | workspaceStorage_cleaner.py:189 | the digit written for a value below 16 reads back as that value |
| Uri.Unquote | workspaceStorage_cleaner.py:189 | percent-decoding never lengthens the path |
| Uri.UnquoteWithoutEscapes | main.py:194 | a path without `%` is left as it is |
| Uri.UnquoteQuote | workspaceStorage_cleaner.py:189 | `Quote` is the percent-encoding used when the editor writes a `folder` URI, and it is the partner of `unquote`. Decoding undoes it for every string, so the saved workspace path is the path looked up |
| Scanner.ReadManifest | workspaceStorage_cleaner.py:181-184 | only a regular `workspace.json` inside a directory entry can be opened; conversely such a file always opens, giving its object, or `Malformed` for unparsable text |
| Scanner.ElapsedDays | workspaceStorage_cleaner.py:194-195 | `timedelta.days` is the whole number of days elapsed, rounded down also when the difference is negative |
| Scanner.WorkspacePath | workspaceStorage_cleaner.py:189 | the decoded workspace path is never longer than the URI's path, and is that path when it holds no escape |
| Scanner.IsOld | workspaceStorage_cleaner.py:191-195 | old iff at least 31 whole days (31 * 86400 s) have elapsed; a modification time in the future is never old |
| Scanner.Record | workspaceStorage_cleaner.py:197-204 | the record's path is the entry's path; `workspace_exists` is `is_dir` of the percent-decoded URI path; `is_old` is the 31-day test; the size is the entry's recursive size |
| Scanner.Classify | workspaceStorage_cleaner.py:178-204 | one iteration raises iff the manifest is unreadable or malformed, skips iff the object lacks `folder`, and otherwise yields the entry's `Record` |
| Scanner.ScanEntries | workspaceStorage_cleaner.py:177-206 | the loop over a directory's entries yields at most one record per entry |
| Scanner.Scan | workspaceStorage_cleaner.py:177-206 | a scan succeeds only on an existing directory, with at most one record per entry |
| Scanner.ScanErrorPersists | workspaceStorage_cleaner.py:181-184 | once an entry has raised, later entries do not change the result |
| Scanner.ScanOkIff | workspaceStorage_cleaner.py:178-206 | the scan returns a list iff every entry's manifest opens and parses, so no partial list is returned |
| Scanner.ScanFirstError | main.py:182-189 | the exception raised is that of the first entry, in listing order, whose manifest fails |
| Scanner.ScanStep | workspaceStorage_cleaner.py:178-204 | a successful scan scanned the earlier entries and then appended the last entry's record, or skipped it |
| Scanner.ScanRecords | workspaceStorage_cleaner.py:178-206 | a successful scan holds exactly one record per entry with a `folder` key, in listing order (the j-th record is the `Record` of the j-th such entry), and none for other entries |
| Scanner.ScanPathsUnique | main.py:183-209 | the records' paths are pairwise distinct |
| Scanner.ScanSizeBound | workspaceStorage_cleaner.py:202 | the records' sizes sum to at most the entries' total size, and to exactly that total when no entry was skipped |
| Scanner.ParseWSSFolder | workspaceStorage_cleaner.py:169-206 | the append loop returns `Scan` of the root: raises for a missing or non-directory root or a bad manifest, else the record list |
| Validity.IsValidWSSPath | workspaceStorage_cleaner.py:92-99 | valid iff the root exists, is a directory, and every entry (files included) has `workspace.json` directly inside; an empty root is valid |
| Validity.HasManifest | workspaceStorage_cleaner.py:97 | `workspace.json` exists under an entry only when the entry is a directory that holds an entry of that name |
| Validity.IsValidWSSPathMain | main.py:98-105 | false for a missing path; raises iff the path exists and is not a directory; otherwise agrees with the other revision |
| Validity.ScannableRootIsValid | workspaceStorage_cleaner.py:220-228 | every root the scan gets through passes the validity check |
| Validity.ValidRootCanFailScan | workspaceStorage_cleaner.py:97 | the converse fails: a root whose `workspace.json` is a directory is valid yet makes the scan raise |
| Planner.Unwanted | workspaceStorage_cleaner.py:230 | the unwanted list holds exactly the old or orphaned records, in scan order (the j-th is the record at the j-th eligible position) |
| Planner.Eligible | workspaceStorage_cleaner.py:230 | a record is unwanted iff it is old or its workspace is gone |
| Planner.UnwantedSize | workspaceStorage_cleaner.py:231 | the unwanted total is at most the scanned records' total, and 0 when nothing is unwanted |
| Planner.UnwantedSizeBound | main.py:232-235 | the unwanted byte total is at most `getSizeOfFolder` of the root |
| Planner.Decide | workspaceStorage_cleaner.py:228-252 | deletion is planned only with confirmation, a non-empty unwanted list (exactly the filter of the scan) and a positive total, and is always planned then; an empty list, a refusal or a zero total removes nothing, the last by raising `ZeroDivisionError`; a failed scan ends the run with its error, or with main.py's listing error for a root that is not a directory |
| Planner.ManifestSizeBound | workspaceStorage_cleaner.py:233 | an entry is at least as large as its manifest file |
| Planner.UnwantedImpliesPositiveTotal | workspaceStorage_cleaner.py:236-240 | a non-empty unwanted list over non-empty manifests means a positive total |
| Planner.ZeroDivisionNeedsEmptyManifest | main.py:242 | the percentage's division by zero is reached only when some manifest file is empty |
| Reclaimer.NodeAtFinds | workspaceStorage_cleaner.py:264 | `rmtree`'s target is found exactly when an entry has that path, and what is found is that entry's node |
| Reclaimer.Without | workspaceStorage_cleaner.py:264 | the root's entries after an `rmtree` that completes: every entry but the one at the removed path, in order |
| Reclaimer.Damage | workspaceStorage_cleaner.py:264 | the root's entries after an `rmtree` that raises: the entry at its path replaced by the residue, or dropped when nothing remains |
| Reclaimer.WithoutMembers | workspaceStorage_cleaner.py:264 | a complete `rmtree` removes the entry at its path and keeps every other entry |
| Reclaimer.DamageMembers | workspaceStorage_cleaner.py:264 | an `rmtree` that raises keeps every other entry and leaves at most what remains of its target |
| Reclaimer.DistinctNamesUnique | workspaceStorage_cleaner.py:178 | the entries of one directory are determined by their names |
| Reclaimer.TargetedInPaths | workspaceStorage_cleaner.py:254 | an entry is targeted by a stretch of the loop iff its path is among that stretch's paths |
| Reclaimer.Process | workspaceStorage_cleaner.py:253-274 | the loop over the targets from position i: the outcome it ends with and the root's entries it leaves |
| Reclaimer.ProcessStops | workspaceStorage_cleaner.py:253-274 | the loop stops early only at a position of the list, and only the interrupt fault ends it as interrupted |
| Reclaimer.ProcessAddsOnlyResidue | workspaceStorage_cleaner.py:254-264 | nothing appears in the root except what remains of the entry whose removal raised |
| Reclaimer.ProcessRemovesTargets | workspaceStorage_cleaner.py:254-264 | no entry whose path the loop reached before the stop is left |
| Reclaimer.ProcessRemoves | workspaceStorage_cleaner.py:254-264 | both of the above together: targets before the stop are gone, and only residue is new |
| Reclaimer.ProcessKeeps | workspaceStorage_cleaner.py:254-264 | every entry the loop did not reach is untouched |
| Reclaimer.ProcessCompletes | workspaceStorage_cleaner.py:254-266 | with no fault, over distinct targets that all name directories, the loop completes |
| Reclaimer.CompletedRemovesExactly | workspaceStorage_cleaner.py:265-266 | a completed loop has removed exactly the listed entries and no other child of the root |
| Reclaimer.StoppedKeepsPartialState | workspaceStorage_cleaner.py:267-274 | a loop stopped at k leaves entries 0..k-1 removed and entries after k untouched, with no rollback |
| Reclaimer.UnwantedPathsDistinct | workspaceStorage_cleaner.py:228-230 | with distinct entry names, the unwanted records have pairwise distinct paths |
| Reclaimer.UnwantedAreDirectories | workspaceStorage_cleaner.py:228-230 | every unwanted record is the path of a directory entry of the root |
| Reclaimer.DeletePlanCompletes | workspaceStorage_cleaner.py:228-266 | the list `main` hands to the loop names distinct directories of the root, so a fault-free loop removes exactly the unwanted entries |
| Reclaimer.Removals | workspaceStorage_cleaner.py:255-263 | the i-th progress line reads (i+1 of n) with the entry's name |
| Reclaimer.Log | main.py:250-260 | main.py announces the count first; one progress line per started `rmtree`, the last naming the failing entry; the success message comes last, and appears iff all were removed |
| Reclaimer.LogLines | main.py:253-256 | the j-th progress line, after main.py's one-line header, reads (j+1 of n) with the j-th target's name, for every removal started |
| Reclaimer.Storage.constructor | workspaceStorage_cleaner.py:214 | the storage object starts at the given path with the given contents |
| Reclaimer.Storage.RemoveTree | workspaceStorage_cleaner.py:264 | `rmtree` removes a directory entry whole, and raises without change for any other path |
| Reclaimer.Storage.RemoveNth | workspaceStorage_cleaner.py:254-264 | one iteration: the fault ends the loop with the damaged entries, a removable target is removed and the loop goes on, any other target ends it as failed |
| Reclaimer.Storage.Reclaim | workspaceStorage_cleaner.py:253-274 | the loop's outcome and the root's new entries are `Process` of the old entries, and its output is `Log` |
| Reclaimer.Storage.Run | main.py:222-270 | `main` stops with the result `Decide` gives and an unchanged root, or runs the loop over `Decide`'s list |

## Left out

- Console output is left out: `printWithColor`, colorama, readline, and the exact text and colours of messages. Progress is recorded as `Reclaimer.Progress` values.
- `format_size` and the `round(100 * unwanted / total, 2)` percentage use floating point, so they are left out. Only the division's exception on a zero total and the bound unwanted ≤ total are kept.
- `getDefaultWSSFolderPath` is left out. It is an operating-system and user-name lookup; the root path is a field of `Storage`.
- `askForValidWSSPath` and `askYesNoQuestion` are interactive loops, so they are left out. `main` discards the path they return, and the final answer is the boolean `confirm`. The model does not capture an interactive loop that never ends.
- `json.loads` is left out. A file's text is already parsed into `Json`, either unparsable or an object of string fields. JSON values that are not objects, and a `folder` value that is not a string, are not modelled.
- `urlparse(...).path` is the input function `Env.uriPath`. `Path(p).is_dir()` for the workspace is the input predicate `Env.isDir`, which also covers `Path`'s normalisation.
- Uri.Unquote: does not model UTF-8 decoding. Each decoded octet becomes the character with that code, which is exact only for ASCII escapes.
- Scanner.IsOld: does not model local time, daylight-saving shifts or sub-second times. Times are integer seconds since the epoch.
- Scanner.ParseWSSFolder: the source reads the clock once per entry; the model reads `Env.now` once for the whole scan.
- Symbolic links, permissions and unreadable files are left out. So is an error raised by `stat` or `iterdir` inside `getSizeOfFolder`. The tree is finite and has no cycles.
- Concurrent changes to the disk during a run are left out.
- Reclaimer.Storage.Reclaim: an `rmtree` that raises part-way is described by the `residue` the caller supplies, not by `rmtree`'s own traversal. Removing an entry does not update the root's modification time.
- A `KeyboardInterrupt` outside `rmtree` is left out, for example at a prompt or while printing. So is the `__main__` exception wrapper. An interrupt is modelled only as the fault of one `rmtree` call.
- main.py's `Folder.__repr__` produces display text only, so it is left out.
