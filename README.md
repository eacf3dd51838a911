# Coding-session snapshot diff, in Dafny

A model of the session engine of a small command-line tool that measures a
coding session in a project directory. Starting a session walks the
project tree. The walk skips every directory whose own name starts with a
dot and keeps regular files whose lower-cased extension is on a sixteen-entry
allow-list. Start records the kept paths, a hash of each file's text, and
the total number of lines and characters. Activity pulses credit the gap
since the previous pulse when it is under five minutes. Ending the session
counts again, records the signed line and character differences, and
compares the path sets and hash tables: created, deleted and modified files.
The final report splits durations into hours, minutes and seconds with
Rust's truncating integer division.

The filesystem is a value (`FileTree.Tree`, a map from path to a directory
listing or a file's text). Each walk the source performs reads its own
`Tree` parameter, so a tree that changes between two walks of one operation
can be expressed. Times are integer seconds passed in by the caller, and
the content hash is a function parameter.

Modules, following the source's structure:

- `FileTree`: paths, the tree, `file_name`, hidden directories, `read_to_string`.
- `Classifier`: `Path::extension`, lower-casing, the allow-list.
- `Text`: `str::lines` and its line count.
- `Scanner`: the recursive `visit_dirs` of `scan_files` and of `count_all_content`. Both are specified by one function `Walk`, which lists the kept files in visiting order. Each is also written as an imperative method with a loop over the listing, proved equal to that function.
- `Fingerprint`: `compute_file_hashes`, a loop that fills a map.
- `Differ`: the set computation in `end`.
- `Activity`: the idle cutoff of `record_activity`.
- `Sessions`: the `Session` object as a class, with `new`, the recomputing part of `load`, `end` and `record_activity`.
- `Report`: the integer arithmetic of `draw_stats`.
- `Scenario`: a start, reload and end sequence on small trees.

Where the code and the documented intent differ, the model follows the code:

- An I/O error while listing a directory, or a bad directory entry, aborts the whole walk. It is propagated with `?`, not skipped.
- Only directories are excluded for a leading dot. A hidden file such as `.foo.rs` is kept (`Classifier.HiddenFileKept`). A root such as `.` that has no file name is not excluded.
- `load` rebuilds the path set and the hash table from the tree as it is at load time. The `end` command runs after a `load`, so its diff compares the tree at load time with the tree at end time. `Scenario.EndAfterReload` shows that this diff is always empty when the tree has not changed in between. That holds even though the same session ended without reloading reports the changes since the start, such as `b.py` created and `a.py` modified (`Scenario.ScenarioDiffs`). The line and character differences are not affected, because the initial counts are persisted.
- For the same reason, each activity pulse that goes through `load` starts from a fresh `last_activity` and credits almost nothing. The model states what one `record_activity` call does on a live object.

## Model

| member | source | states |
|---|---|---|
| FileTree.FileName | src/session.rs:160 | a file name, when there is one, is the last component and is not `.`, `..` or the root; no file name means an empty path or one of those three |
| FileTree.IsHidden | src/session.rs:160-165 | the test that stops a walk at a directory whose name starts with a dot; its effect is stated by `Scanner.HiddenDirSkipped` and `Scanner.WalkKeepsExactly` |
| FileTree.DirsBelowShrinks | src/session.rs:171-172 | entering a sub-directory strictly shrinks the set of directories below, so the recursive walk terminates |
| Classifier.LastDot | src/session.rs:174 | the index found holds a `.`, no later index does, and none means the name has no `.` |
| Classifier.Extension | src/session.rs:174 | an extension exists only for a file name that is a non-empty stem, a dot and the dot-free extension; no extension means no dot after the first character |
| Classifier.ToLower | src/session.rs:180 | `to_lowercase` on the extension; stated by `ToLowerLowers` |
| Classifier.ToLowerLowers | src/session.rs:180 | lower-casing keeps the length, leaves no upper-case letter, lowers each upper-case letter to its lower-case partner and leaves every other character unchanged |
| Classifier.InScopeFile | src/session.rs:173-183 | the test both walks apply to a regular file; its meaning is stated by `InScopeIgnoresCase` |
| Classifier.InScopeIgnoresCase | src/session.rs:174-183 | a file `stem.ext` with a non-empty stem is kept exactly when the lower-cased `ext` is on the allow-list; this includes `..rs`, and `..`, which has no file name |
| Classifier.HiddenFileKept | src/session.rs:173-183 | a file named `.foo.rs` is kept: hidden files are not excluded |
| Classifier.NoExtensionNotKept | src/session.rs:174-175 | `.rs`, whose only dot leads the name, and `Makefile`, with no dot, have no extension and are not kept |
| Classifier.CaseExamples | src/session.rs:174-183 | `MAIN.RS` is kept and `a.PNG` is not: only the lower-cased extension is compared |
| Text.StripCR | src/session.rs:222 | removes the carriage return of a line ended by a carriage return and line feed; the count it leaves is stated by `LineCountClosedForm` |
| Text.LineEnd | src/session.rs:222 | the index returned is the first newline, or the end of the text |
| Text.Lines | src/session.rs:222 | no line yielded by `str::lines` contains a newline |
| Text.NewlineCountAppend | src/session.rs:222 | newlines of a concatenation add up |
| Text.NoNewlineCountsZero | src/session.rs:222 | text without a newline has no newlines counted |
| Text.LineCountClosedForm | src/session.rs:222 | `lines().count()` is the number of newlines, plus one when the text is non-empty and does not end in a newline; so the empty text has no lines |
| Text.LinesRejoin | src/session.rs:222 | for text without carriage returns that is empty or ends in a newline, appending a newline to every line gives the text back |
| Scanner.Walk | src/session.rs:159-188 | the files one `visit_dirs` call meets, in order, or its first error; which files it keeps is stated by `WalkKeepsExactly` and `WalkStaysBelow`, when it fails by `WalkFailsExactly` |
| Scanner.WalkEntries | src/session.rs:167-187 | the loop over a directory listing; stated by `WalkEntriesStep`, `WalkEntriesErrorSticks` and `WalkEntriesKeep` |
| Scanner.Visit | src/session.rs:168-185 | one turn of the loop: a bad entry fails, a sub-directory is walked, an in-scope file is kept; stated by `BadEntryFails`, `WalkEntriesFail`, `HiddenDirSkipped` and `WalkEntriesKeep` |
| Scanner.FailsAtUnfold | src/session.rs:167-172 | a walk meets a broken directory below `dir` through a first component exactly when `dir` lists that component visibly and the walk of that sub-directory meets one |
| Scanner.WalkFailsExactly | src/session.rs:159-188 | the walk fails if and only if it enters a directory, not hidden, whose `read_dir` fails or whose listing holds an entry that cannot be read: errors propagate and are never skipped |
| Scanner.WalkEntriesFail | src/session.rs:167-186 | the walk over a listing fails if and only if the listing holds a bad entry or a sub-directory whose walk fails |
| Scanner.BadEntryFails | src/session.rs:168 | a bad entry anywhere in a listing makes the walk over it fail |
| Scanner.ScanAndCountFailTogether | src/session.rs:156-234 | `scan_files` and `count_all_content` fail on exactly the same trees: those where the walk meets a broken directory |
| Scanner.HiddenDirSkipped | src/session.rs:160-165 | a listed sub-directory whose name starts with a dot adds nothing to the walk and cannot make it fail |
| FileTree.ReadToString | src/session.rs:145 | `fs::read_to_string`: the text of a readable regular file, nothing otherwise; its use is stated by `ComputeFileHashes`, `UnreadableAddsNothing` and `ReadableAddsItsText` |
| Scanner.ScanSet | src/session.rs:156-192 | what `scan_files` returns; stated by `ScanMembership` and `ScanAndCountFailTogether`, and `ScanFiles` is proved to return it |
| Scanner.Totals | src/session.rs:194-234 | what `count_all_content` returns; stated by `LinesInAppend`, `UnreadableAddsNothing`, `ReadableAddsItsText` and `ScanAndCountFailTogether`, and `CountAllContent` is proved to return it |
| Scanner.FileLines | src/session.rs:221-222 | `lines().count()` of a file, zero when it does not read; stated by `UnreadableAddsNothing`, `ReadableAddsItsText` and `Text.LineCountClosedForm` |
| Scanner.FileChars | src/session.rs:221-223 | `chars().count()` of a file, zero when it does not read; stated by `UnreadableAddsNothing` and `ReadableAddsItsText` |
| Scanner.LinesInAppend | src/session.rs:206-228 | line and character totals over two runs of files add up |
| Scanner.UnreadableAddsNothing | src/session.rs:221-224 | a file that does not read adds nothing to either total |
| Scanner.ReadableAddsItsText | src/session.rs:221-224 | a readable file adds its `lines().count()` and its character count |
| Scanner.WalkEntriesStep | src/session.rs:167-186 | the walk over one more entry visits that entry unless the walk already failed |
| Scanner.WalkEntriesErrorSticks | src/session.rs:167-168 | once an entry fails, the walk of the whole directory fails with that error |
| Scanner.WalkStaysBelow | src/session.rs:167-186 | every path a walk keeps lies strictly below the directory walked |
| Scanner.WalkEntriesStaysBelow | src/session.rs:167-186 | the same for the walk over part of a listing |
| Scanner.KeptUnfold | src/session.rs:171-183 | a path is kept from a directory exactly when its first component is listed there and is visible, and the rest is kept from that child |
| Scanner.WalkKeepsExactly | src/session.rs:159-188 | after a successful walk, a path below the directory is in the result exactly when every directory on the way is listed and not hidden, and the path is a regular file with an allowed extension |
| Scanner.WalkEntriesKeep | src/session.rs:167-186 | the same characterisation for the walk over a listing |
| Scanner.VisitKeep | src/session.rs:168-185 | one turn of the loop adds exactly the kept paths that go through its entry and keeps what was found before |
| Scanner.SubWalkKeep | src/session.rs:170-172 | the paths a walked sub-directory adds are exactly the kept paths that go through that entry |
| Scanner.ScanMembership | src/session.rs:156-192 | `scan_files(root)` contains exactly the kept regular files below the root, and never a directory |
| Scanner.ScanVisitDirs | src/session.rs:159-188 | the loop adds exactly the walk's files to the set passed in, or returns the walk's first error |
| Scanner.ScanFiles | src/session.rs:156-192 | `scan_files` returns the kept set or the first error |
| Scanner.CountVisitDirs | src/session.rs:198-230 | the loop adds the line and character totals of the walk's files to the counters passed in, or returns the walk's first error |
| Scanner.CountAllContent | src/session.rs:194-234 | `count_all_content` returns the totals over the kept files, unreadable ones counting zero, or the first error |
| Fingerprint.ComputeFileHashes | src/session.rs:141-154 | the table's keys are exactly the given paths that read, and each maps to the hash of its text |
| Fingerprint.Fingerprints | src/session.rs:141-154 | the table `compute_file_hashes` builds; `ComputeFileHashes` is proved to build exactly it |
| Fingerprint.SameTextSameDigest | src/session.rs:145-149 | two tables built from the same text at a path agree on that path |
| Differ.Compare | src/session.rs:96-123 | created are current paths not seen at the start; deleted the reverse; modified lie in both path sets and both tables; the three are pairwise disjoint |
| Differ.Partition | src/session.rs:99-105 | created, deleted and the common paths partition all paths seen |
| Differ.CurrentFromInitial | src/session.rs:99-100 | the current set is the initial set less the deleted plus the created |
| Differ.ModifiedIff | src/session.rs:107-118 | a path is modified exactly when it is in both sets, both tables hold it and the hashes differ |
| Differ.NoChangeNoDiff | src/session.rs:96-123 | identical snapshots give no created, deleted or modified path |
| Differ.CompareReversed | src/session.rs:99-118 | comparing the other way swaps created and deleted and keeps modified |
| Differ.ModifiedMeansTextChanged | src/session.rs:107-118 | with tables built by the hashing loop, a modified path read both times and its text changed |
| Differ.ModifiedIffTextChanged | src/session.rs:107-118 | with a collision-free hash, modified means exactly: present both times, read both times, text changed |
| Activity.Elapsed | src/session.rs:131 | the whole seconds since the last activity, never negative; used through `Credit` |
| Activity.Credit | src/session.rs:129-137 | a pulse credits less than 300 s, and a positive credit is exactly the gap since the previous pulse |
| Activity.CutoffIsExclusive | src/session.rs:134 | a gap of 299 s is credited in full, a gap of exactly 300 s not at all |
| Activity.CreditIff | src/session.rs:134-135 | the whole gap is credited if and only if it is below 300 s |
| Activity.ActiveAfter | src/session.rs:129-139 | the active time after a run of `record_activity` calls; stated by `ActiveWithinWallTime`, `ActiveBoundedByPulses` and `LongBreakNotCounted` |
| Activity.ActiveWithinWallTime | src/session.rs:129-139 | for pulses in time order, active time never exceeds the time from the start to the last pulse |
| Activity.ActiveBoundedByPulses | src/session.rs:134-135 | each pulse adds at most 299 s |
| Activity.LongBreakNotCounted | src/session.rs:132-136 | pulses at 0, 10 and 400 s credit only the 10 s gap |
| Sessions.Started | src/session.rs:41-57 | the persisted part of a new session; `Session.New` states that a new session has exactly it |
| Sessions.Session.constructor | src/session.rs:41-57 | the object holds exactly the given persisted and process-local fields |
| Sessions.Session.New | src/session.rs:35-58 | a new session holds the scanned set, its hash table and the initial totals, with no final fields, zero active time and the current instant; a failing walk aborts with its error |
| Sessions.Session.Load | src/session.rs:67-82 | no stored record gives no session; otherwise the persisted fields come back unchanged and the path set and hash table are recomputed from the tree at load time |
| Sessions.Session.End | src/session.rs:84-123 | the final counts are the current totals and the written counts their signed differences from the initial ones; with a snapshot held, the file lists are the diff between it and the current scan; errors abort and keep what was already set |
| Sessions.Session.RecordCounts | src/session.rs:85-91 | the counting half of `end`: on success the final counts are the current totals and the written counts their differences from the initial ones; on error nothing changes |
| Sessions.Session.RecordDiff | src/session.rs:93-123 | the diffing half of `end`: the scan's error is returned; with a snapshot held the file lists are the diff between it and the current scan, otherwise they are untouched |
| Sessions.Session.RecordActivity | src/session.rs:129-139 | active time grows by the pulse's credit and never decreases; the last activity becomes now |
| Sessions.RecordPulses | src/session.rs:129-139 | a run of `record_activity` calls on one session adds exactly `ActiveAfter` from its last activity, ends with the last pulse as the last activity, and for pulses in time order adds no more than the wall time they span |
| Report.Quot | src/ui.rs:28 | Rust's `/` with a positive divisor: the remainder left has the dividend's sign and is smaller than the divisor |
| Report.Rem | src/ui.rs:29-30 | Rust's `%` with a positive divisor: dividend = quotient × divisor + remainder, with the remainder taking the dividend's sign |
| Report.QuotRemUnique | src/ui.rs:28-30 | only one quotient and remainder pair satisfies those conditions |
| Report.Split | src/ui.rs:28-39 | the hours, minutes and seconds shown for a duration; stated by `SplitRecombines` and `ShowsOnlySplit` |
| Report.SplitRecombines | src/ui.rs:27-39 | the split shows its duration: hours × 3600 + minutes × 60 + seconds gives it back; for a non-negative duration minutes and seconds lie in 0..59, for a negative one all parts are non-positive with minutes and seconds above −60 |
| Report.ShowsOnlySplit | src/ui.rs:27-39 | no other hours, minutes and seconds meet those conditions, so they determine the shown parts |
| Report.NegativeIdleTruncates | src/ui.rs:36-39 | an idle time of −61 s shows as 0 h, −1 min, −1 s, not as Euclidean remainders |
| Report.SignPrefix | src/ui.rs:100 | the explicit `+` before a difference; stated by `SignedShowsOneSign` |
| Report.Digits | src/ui.rs:99-101 | a natural number prints as canonical digits (no leading zero; zero prints as `0`) whose value is the number |
| Report.DigitValueSign | src/ui.rs:99-101 | a digit string is worth at least zero, and more than zero when its first digit is not `0` |
| Report.DigitsOnly | src/ui.rs:99-101 | canonical digits worth `n` are exactly the ones `Digits(n)` prints |
| Report.Decimal | src/ui.rs:99-101 | how `{}` prints an integer; stated by `DecimalRoundTrip` |
| Report.DecimalRoundTrip | src/ui.rs:99-101 | reading the printed text back, an optional minus and then digits, gives the value |
| Report.Signed | src/ui.rs:99-110 | the text shown after "Lines Written: " and "Characters Written: "; stated by `SignedShowsOneSign` |
| Report.SignedShowsOneSign | src/ui.rs:99-110 | a shown difference is a `+` for zero and above or a `-` below zero, then the canonical digits of its size; it reads back as the value |
| Report.ShowsSignedOnly | src/ui.rs:99-110 | no other text meets those conditions, so they determine the shown text |
| Report.CountOr0 | src/ui.rs:75-77 | a recorded file list's length, zero when none was recorded; stated by `Summarize` |
| Report.Summarize | src/ui.rs:27-77 | total, active and idle parts show total seconds, active seconds and their difference (so, by `ShowsOnlySplit`, they are exactly the split ones); absent written counts are zero; each shown text is a `+` or `-` by sign followed by the canonical digits of the size (so, by `ShowsSignedOnly`, exactly what `{}` prints); file counts are the set sizes or zero when absent |
| Scenario.ScenarioDiffs | src/session.rs:84-123 | on a tree where `a.py` changes and `b.py` appears, the start snapshot reports `b.py` created and `a.py` modified, and lines written is the difference of the line counts |
| Scenario.EndAfterReload | src/session.rs:67-123 | ending the started session reports the diff between the two trees; ending a session reloaded on the later tree reports nothing; lines written agree |

## Left out

- The command-line front end, the background thread, the key polling and the Ctrl+C exit in `src/main.rs`: concurrency and terminal I/O. It is not part of this model.
- The terminal rendering of the report, its colours and the `{:02}` zero padding: user-interface layout only.
- Lines and characters per active hour: floating-point division.
- Saving and reading the JSON session file, and removing it at the end of `end`. The store is a parameter: the `Record` that was saved, or none. A parse or read failure of the store is not modelled.
- The standard library's `DefaultHasher` and its hexadecimal formatting: the hash is an arbitrary function from text to digest.
- Wall clocks (`Local::now`, `Instant::now`, `elapsed`): times are integer seconds given by the caller, and sub-second precision is dropped.
- Symbolic links, cycles through them, and metadata errors from `is_dir` and `is_file`. A path is a directory, a regular file, or neither, and a neither-path is skipped.
- Path normalisation, non-UTF-8 file names and `to_string_lossy`: names are strings, and a path is the sequence of its components.
- Scanner.CountAllContent: totals are unbounded integers, so the wrap-around of the `i32` line counter and of the `as i32` cast is not modelled.
- Sessions.Session.End: the written counts are unbounded differences, so overflow of the `i32` and `i64` subtraction is not modelled. The created, deleted and modified lists are sets, so their order is not modelled.
- Sessions.Session.RecordActivity: active time is unbounded, so `i64` overflow is not modelled.
- Sessions.RecordPulses: the pulses of the running program each arrive through `load`, which resets the last activity; the method states what the same calls do on one live object.
- Classifier.ToLower: only ASCII letters are lowered. For testing membership in the allow-list this agrees with Unicode lower-casing. The only non-ASCII character that lowers to an ASCII letter is the Kelvin sign, and its lower case `k` appears in no allowed extension.
- Report.Summarize: durations are unbounded, so `i64` overflow is not modelled. The project directory line is not modelled.
