# Duplicate file detector: scanning and grouping core

This project is a Dafny model of the Rust backend of a desktop duplicate file
detector. The backend does four things:

1. It walks the chosen folders and keeps the files that pass a size and
   extension filter.
2. It buckets those files by size, because a file whose size is unique cannot
   have a duplicate.
3. It hashes the candidate files.
4. It groups the files whose content hash is shared by two or more of them.
   These are the duplicate groups, and they are sorted so that the group
   wasting the most bytes comes first.

Around that pipeline the model also covers the scan session state (one scan at
a time, with cancellation), the error kinds and their frontend responses, and
the summary totals of a scan result.

Modules:

- `Wrappers` (`wrappers.dfy`) holds the `Option` and `Result` used throughout.
- `Types` (`types.dfy`) holds the records of `types.rs`: scan options, file
  entries, duplicate groups, scan and delete results. It also holds a group's
  count and wasted space, and the totals of a scan result.
- `Grouping` (`grouping.dfy`) models the `HashMap` bucketing loop
  `entry(key).or_default().push(value)` over a list of (value, key) pairs:
  - `Select(pairs, k)` is the bucket of key `k`, in input order.
  - `Bucket` is the whole map.
  - `Keys` lists the distinct keys.
- `Duplicates` (`duplicates.dfy`) models `find_duplicates`, its sort by wasted
  space, and `filter_by_min_wasted_space`.
- `Filter` (`filter.dfy`) models `FileFilter`:
  - extension normalisation and the builder functions;
  - `Path::extension` on `/`-separated paths;
  - `matches` and `has_restrictions`.
- `Scanner` (`scanner.dfy`) models:
  - `ScanOutput` and how the walk fills it;
  - `group_by_size` and `count_files_in_groups`;
  - `build_filter`.
- `State` (`state.dfy`) models `AppState` as an immutable record with pure
  transitions. A run of operations replays the lifecycle.
- `Errors` (`error.dfy`) models `ScannerError`, `is_recoverable`,
  `user_message`, the error codes and `ErrorResponse`.
- `Hasher` (`hasher.dfy`) models `HashResult` and the two functions that split
  a batch of hash results into successes and failures.

Two points about what the code does:

- **Leading dots on filter extensions.** `Filter.Normalize` strips every
  leading dot, like `trim_start_matches('.')`.
- **Order of duplicate groups.** Before sorting, the groups come in
  `HashMap` iteration order, which is unspecified; the model takes the order
  in which hashes first appear in the input. The sort, `sort_by_key`, is
  stable, and so is the model's insertion sort: groups with equal wasted
  space keep that order (`Duplicates.SortIsStable`). The contract of
  `Duplicates.FindDuplicates` promises no particular order among ties.

## Model

| member | source | states |
|---|---|---|
| Types.DefaultScanOptions | src-tauri/src/types.rs:35-45 | Default options have no roots, no size minimum, no extension lists, and do not follow symlinks |
| Types.WastedSpaceByCount | src-tauri/src/types.rs:89-102 | Wasted space is (count − 1) × size for a group of at least one file, and 0 for at most one, where the count is the number of files |
| Types.WastedSpace | src-tauri/src/types.rs:94-102 | Wasted space is 0 for fewer than two files; otherwise it plus one copy's size equals count × size |
| Types.WastedSpaceIsBytesBeyondKeepCopy | src-tauri/src/types.rs:94-102 | When all files have the group's size, wasted space is the total size of every file after the first (the kept copy) |
| Types.TotalWastedIsBytesBeyondKeepCopies | src-tauri/src/types.rs:200-203 | When every group is non-empty and every file has its group's size, the summed wasted space is the bytes of every file beyond each group's kept copy |
| Types.TotalWasted | src-tauri/src/duplicates/mod.rs:54-56 | The total wasted space is at least each group's wasted space, and is 0 exactly when no group wastes anything |
| Types.TotalFileCount | src-tauri/src/duplicates/mod.rs:65-67 | The total duplicate count is at least each group's count, and is 0 exactly when every group is empty |
| Types.TotalWastedAppend | src-tauri/src/duplicates/mod.rs:54-56 | Total wasted space is additive over concatenated group lists |
| Types.TotalFileCountAppend | src-tauri/src/duplicates/mod.rs:65-67 | Total duplicate count is additive over concatenated group lists |
| Types.NewScanResult | src-tauri/src/types.rs:189-213 | The result keeps the groups, files scanned, errors and duration as given; its totals are the summed file counts and wasted space of the groups |
| Types.ScanResultExample | src-tauri/src/types.rs:424-454 | Groups of 2 × 1000 and 3 × 500 bytes give 5 duplicates and 2000 wasted bytes |
| Types.AllSucceeded | src-tauri/src/types.rs:254-257 | A deletion succeeded entirely exactly when no failure was recorded |
| Grouping.SelectAppend | src-tauri/src/duplicates/mod.rs:21-23 | A bucket of concatenated input is the bucket of the first part followed by that of the second, so buckets keep input order |
| Grouping.SelectFrom | src-tauri/src/duplicates/mod.rs:21-23 | Every value in a bucket came from an input pair carrying that key |
| Grouping.SelectNonEmpty | src-tauri/src/duplicates/mod.rs:21-23 | A bucket is non-empty exactly when some input pair carries its key |
| Grouping.Bucket | src-tauri/src/duplicates/mod.rs:19-23 | The map's keys are exactly the keys that occur in the input, and each entry is that key's bucket |
| Grouping.Keys | src-tauri/src/duplicates/mod.rs:26-28 | The key list holds each occurring key exactly once |
| Duplicates.ToGroups | src-tauri/src/duplicates/mod.rs:26-33 | Every group comes from a listed key, has at least 2 files, holds that key's bucket, and takes the first file's size |
| Duplicates.ToGroupsHashes | src-tauri/src/duplicates/mod.rs:26-33 | A hash becomes a group exactly when it is a listed key whose bucket has 2 or more files |
| Duplicates.ToGroupsDistinct | src-tauri/src/duplicates/mod.rs:26-33 | Distinct map keys give groups with distinct hashes |
| Duplicates.SortByWastedSpace | src-tauri/src/duplicates/mod.rs:36 | The sort returns a permutation of its input in non-increasing wasted space |
| Duplicates.InsertKeepsTies | src-tauri/src/duplicates/mod.rs:36 | Inserting a group into a sorted list puts it ahead of the groups it ties with and keeps the order of all other ties |
| Duplicates.SortIsStable | src-tauri/src/duplicates/mod.rs:36 | The sort is stable: the groups of any given wasted space come out in their input order |
| Duplicates.PermutationFacts | src-tauri/src/duplicates/mod.rs:36 | Reordering keeps the same groups, the same set of hashes, and distinct hashes |
| Duplicates.SortKeepsTotals | src-tauri/src/duplicates/mod.rs:36-44 | Sorting changes neither the total file count nor the total wasted space |
| Duplicates.FindDuplicates | src-tauri/src/duplicates/mod.rs:17-47 | Each group has ≥ 2 files, exactly the input files with its hash in input order, and the first file's size; a hash has a group iff ≥ 2 inputs carry it; hashes are distinct; wasted space descends |
| Duplicates.FoundFilesComeFromInput | src-tauri/src/duplicates/mod.rs:17-23 | Every file in a group was paired with that group's hash in the input |
| Duplicates.SharedFilesAreFound | src-tauri/src/duplicates/mod.rs:26-33 | An input file whose hash is shared by another input lies in the group of that hash |
| Duplicates.FoundFileCountIsSharedInputs | src-tauri/src/duplicates/mod.rs:40-44 | The files across all groups number exactly the inputs whose hash is shared |
| Duplicates.UniqueHashesGiveNoGroups | src-tauri/src/duplicates/mod.rs:119-129 | Inputs with pairwise different hashes give no group |
| Duplicates.OneHashGivesOneGroup | src-tauri/src/duplicates/mod.rs:131-146 | Two or more inputs under one hash give a single group holding all of them in order |
| Duplicates.FilterByMinWastedSpace | src-tauri/src/duplicates/mod.rs:77-86 | A group is kept exactly when it was given and wastes at least the minimum; the result is never longer |
| Duplicates.FilterAppend | src-tauri/src/duplicates/mod.rs:77-86 | Filtering distributes over concatenation, so kept groups stay in input order |
| Duplicates.FilterKeepsSorted | src-tauri/src/duplicates/mod.rs:77-86 | Filtering a list sorted by wasted space leaves it sorted |
| Filter.Lower | src-tauri/src/scanner/filter.rs:45 | Lower-casing keeps the length, replaces each ASCII upper-case letter by its lower-case letter, and keeps every other character |
| Filter.LowerIsLower | src-tauri/src/scanner/filter.rs:45 | Lower-casing yields lower-case text and leaves lower-case text unchanged |
| Filter.TrimLeadingDots | src-tauri/src/scanner/filter.rs:45 | The input is some dots followed by the result, and the result does not start with a dot |
| Filter.Normalize | src-tauri/src/scanner/filter.rs:45 | The lower-cased input is a run of dots followed by the result, and the result is lower case with no leading dot: ".JPG" is stored as "jpg" |
| Filter.NormalizeIgnoresLeadingDots | src-tauri/src/scanner/filter.rs:45 | Any number of leading dots does not change the normalised extension |
| Filter.NormalizeIdempotent | src-tauri/src/scanner/filter.rs:45 | Normalising twice is normalising once |
| Filter.NormalizeAll | src-tauri/src/scanner/filter.rs:42-47 | The set holds exactly the normalised forms of the listed extensions |
| Filter.NormalizeIgnoresCase | src-tauri/src/scanner/filter.rs:45 | Lower-casing an extension first does not change its normalised form |
| Filter.DottedOrCasedListsBehaveAlike | src-tauri/src/scanner/filter.rs:171-179 | Putting a dot in front of every listed extension, or lower-casing every one, builds the same include and exclude filters as the plain list |
| Filter.New | src-tauri/src/scanner/filter.rs:22-29 | A new filter has no restriction |
| Filter.HasRestrictions | src-tauri/src/scanner/filter.rs:118-123 | A filter has restrictions exactly when some restriction is set |
| Filter.WithMinSize | src-tauri/src/scanner/filter.rs:32-35 | Sets the minimum size and leaves both extension sets alone |
| Filter.ExtensionSet | src-tauri/src/scanner/filter.rs:38-50 | An empty list gives no set; otherwise the set is exactly the normalised forms of the listed extensions |
| Filter.WithIncludeExtensions | src-tauri/src/scanner/filter.rs:38-50 | Replaces only the include set, by the extension set of the list |
| Filter.WithExcludeExtensions | src-tauri/src/scanner/filter.rs:53-65 | Replaces only the exclude set, by the extension set of the list |
| Filter.EmptyListsLeaveUnset | src-tauri/src/scanner/filter.rs:232-241 | An empty include or exclude list leaves that restriction unset |
| Filter.LastIndexOf | src-tauri/src/scanner/filter.rs:84-85 | The result is the last position holding the character, or none when it does not occur |
| Filter.FileName | src-tauri/src/scanner/filter.rs:84-85 | The final path component is the slash-free suffix that follows the last separator |
| Filter.Extension | src-tauri/src/scanner/filter.rs:84-85 | No extension exactly when the final component is ".." or has no dot after its first character; otherwise the dot- and slash-free text after the last dot |
| Filter.ExtensionIsLastSegment | src-tauri/src/scanner/filter.rs:264-270 | A file name "stem.ext" under any directory, with a slash-free non-empty stem and a dot-free ext, has extension ext: only the text after the last dot counts, and a trailing dot gives the empty extension |
| Filter.LeadingDotIsNoExtension | src-tauri/src/scanner/filter.rs:84-85 | A file name whose only dot is its first character, as in ".bashrc", has no extension |
| Filter.Matches | src-tauri/src/scanner/filter.rs:75-116 | A matching file reaches the minimum size, has no excluded lower-cased extension, and, under an include set, has its lower-cased extension (or "" when it has none) included |
| Filter.NewAdmitsEverything | src-tauri/src/scanner/filter.rs:23-29 | A new filter has no restriction and admits every path and size |
| Filter.UnrestrictedAdmitsEverything | src-tauri/src/scanner/filter.rs:75-116 | A filter without restrictions admits every path and size |
| Filter.BelowMinimumRejected | src-tauri/src/scanner/filter.rs:77-81 | A size under the minimum is rejected whatever the path |
| Filter.MinimumSizeOnly | src-tauri/src/scanner/filter.rs:148-157 | With only a minimum, a file passes exactly when its size reaches it |
| Filter.ExcludeTakesPrecedence | src-tauri/src/scanner/filter.rs:89-96 | A file whose lower-cased extension is in the exclude list is rejected whatever the include set |
| Filter.IncludedExtensionRule | src-tauri/src/scanner/filter.rs:89-105 | A large enough file whose lower-cased extension is not excluded passes exactly when there is no include set or its extension is included |
| Filter.NoExtensionRule | src-tauri/src/scanner/filter.rs:106-111 | With an include set, a file without extension passes exactly when its size passes and "" is included |
| Filter.NoExtensionNeverExcluded | src-tauri/src/scanner/filter.rs:89-96 | Without an include set, a file without extension passes exactly when its size passes |
| Filter.MatchesIgnoresCase | src-tauri/src/scanner/filter.rs:84-87 | Lower-casing the path does not change whether a file matches |
| Filter.ExtensionLower | src-tauri/src/scanner/filter.rs:84-87 | The lower-cased extension of a lower-cased path equals that of the original path |
| Scanner.NewOutput | src-tauri/src/scanner/mod.rs:28-33 | A new output has no files and no errors |
| Scanner.AddFile | src-tauri/src/scanner/mod.rs:36-38 | Appends the file and leaves the errors alone |
| Scanner.AddError | src-tauri/src/scanner/mod.rs:41-43 | Appends the error and leaves the files alone |
| Scanner.CollectKeepsReports | src-tauri/src/scanner/mod.rs:102-117 | The walk's output holds the reported files and errors, each in walk order, and nothing else |
| Scanner.ReportedFilesAppend | src-tauri/src/scanner/mod.rs:78-80 | Walking several roots in turn lists the files of the first root before those of the next |
| Scanner.GroupBySize | src-tauri/src/scanner/mod.rs:202-218 | A size is a key exactly when 2 or more files have it; its entry is those files in input order |
| Scanner.UniqueSizesGiveNoBuckets | src-tauri/src/scanner/mod.rs:360-370 | Files with pairwise different sizes give an empty map |
| Scanner.CountFilesInGroups | src-tauri/src/scanner/mod.rs:221-223 | The count is the sum of the entry lengths over all keys |
| Scanner.BucketCountIsSharedFiles | src-tauri/src/scanner/mod.rs:202-223 | The count of the size map is the number of input files whose size is shared |
| Scanner.OptionalExtensionSet | src-tauri/src/scanner/mod.rs:168-174 | An option list yields a set exactly when it is present and non-empty, and that set is exactly the normalised forms of its entries |
| Scanner.BuildFilter | src-tauri/src/scanner/mod.rs:161-177 | The filter takes the options' minimum size and the extension sets of its lists |
| Scanner.EmptyOptionListIsUnset | src-tauri/src/scanner/mod.rs:168-174 | A present but empty extension list builds the same filter as an absent one |
| Scanner.BuildFilterRestricts | src-tauri/src/scanner/mod.rs:161-177 | The built filter restricts exactly when the options set a minimum or a non-empty list |
| Scanner.DefaultOptionsAdmitEverything | src-tauri/src/scanner/mod.rs:161-177 | The filter of the default options admits every file |
| State.New | src-tauri/src/state.rs:23-29 | A new state is not scanning, has no cancel request and no scan id, and satisfies the lifecycle invariant |
| State.TryStartScan | src-tauri/src/state.rs:39-54 | From idle it returns the fresh id; while scanning it returns none and changes nothing; it keeps the invariant |
| State.FinishScan | src-tauri/src/state.rs:57-61 | Finishing clears the scanning flag, the cancel request and the scan id |
| State.RequestCancel | src-tauri/src/state.rs:66-73 | Reports true exactly when scanning, then sets the request and keeps the scan; otherwise changes nothing |
| State.Reset | src-tauri/src/state.rs:87-91 | Reset returns any state to exactly the state a new `AppState` starts in, which satisfies the invariant |
| State.ApplyKeepsValid | src-tauri/src/state.rs:21-91 | Every operation keeps the invariant: a scan id exists exactly while scanning, and a cancel request only while scanning |
| State.ReachableIsValid | src-tauri/src/state.rs:21-91 | Every state reached by any sequence of operations satisfies the invariant |
| State.SecondStartFails | src-tauri/src/state.rs:134-148 | A second start while scanning fails and the first scan's id stays current |
| State.FinishAllowsNewScan | src-tauri/src/state.rs:204-217 | After finishing or reset, a new scan starts |
| State.CancelClearedByFinish | src-tauri/src/state.rs:178-189 | A cancel request holds until the scan finishes, and finishing clears it |
| State.CancelWithoutScanRefused | src-tauri/src/state.rs:66-73 | In a valid state without a scan, cancelling reports false and changes nothing |
| Errors.IsRecoverable | src-tauri/src/error.rs:56-63 | An error is recoverable exactly when it names a path and is not a missing root or a failed delete or trash, so exactly for PermissionDenied, FileDisappeared and InvalidPath; its frontend response then carries that path |
| Errors.ErrorPath | src-tauri/src/error.rs:129-137 | The response path is absent exactly for Io, Cancelled, ScanInProgress and NoActiveScan; otherwise it is the error's path |
| Errors.RecoverableNamesAPath | src-tauri/src/error.rs:56-63 | Recoverable errors all name a path; exactly these three are recoverable: PermissionDenied, FileDisappeared and InvalidPath; the other seven variants are not |
| Errors.UserMessage | src-tauri/src/error.rs:66-79 | The message is non-empty and ends with the error's path, or with the I/O detail |
| Errors.ErrorCode | src-tauri/src/error.rs:116-127 | Every error has a non-empty code |
| Errors.TextsOfEveryVariant | src-tauri/src/error.rs:66-127 | Each of the ten variants has the code and the user message the source gives it |
| Errors.CodeIdentifiesVariant | src-tauri/src/error.rs:116-127 | Two errors share a code exactly when they are the same variant |
| Errors.NewResponse | src-tauri/src/error.rs:99-105 | A new response has the given code and message and no path |
| Errors.WithPath | src-tauri/src/error.rs:108-111 | Sets the path and keeps code and message |
| Errors.ToResponse | src-tauri/src/error.rs:114-145 | The response carries the variant's code and the user message; its path is present exactly for path-carrying variants, and the message ends with it |
| Errors.ResponseExamples | src-tauri/src/error.rs:229-246 | A missing path and a cancellation give the exact codes, messages and paths the unit tests expect |
| Hasher.Success | src-tauri/src/hasher/mod.rs:74-79 | A success keeps the file and holds the hash |
| Hasher.Failure | src-tauri/src/hasher/mod.rs:82-87 | A failure keeps the file and holds the error |
| Hasher.IsSuccess | src-tauri/src/hasher/mod.rs:90-92 | A result is a success exactly when the hash extraction keeps it, and exactly when the error extraction drops it |
| Hasher.IsSuccessMeansBuiltBySuccess | src-tauri/src/hasher/mod.rs:90-92 | A result is a success exactly when it is built by `success`, and a failure exactly when built by `failure` |
| Hasher.ExtractSuccessfulHashes | src-tauri/src/hasher/mod.rs:145-153 | The successes are never more than the results |
| Hasher.SuccessesExtracted | src-tauri/src/hasher/mod.rs:145-153 | Every successful result appears as (file, hash), and every output pair is a successful input |
| Hasher.ExtractHashErrors | src-tauri/src/hasher/mod.rs:159-167 | The errors are never more than the results |
| Hasher.FailuresExtracted | src-tauri/src/hasher/mod.rs:159-167 | Every failed result appears as (path, message), and every output pair comes from a failed input |
| Hasher.ExtractAppend | src-tauri/src/hasher/mod.rs:145-153 | Extracting successes distributes over concatenation, so they keep input order |
| Hasher.ExtractErrorsAppend | src-tauri/src/hasher/mod.rs:159-167 | Extracting errors distributes over concatenation, so they keep input order |
| Hasher.ExtractionsPartition | src-tauri/src/hasher/mod.rs:145-167 | The successes number the successful results, and together with the errors they account for every input exactly once |
| Hasher.ExtractExample | src-tauri/src/hasher/mod.rs:295-316 | The unit-test batch keeps the two successes in order and skips the failure |

## Left out

- Reading files and hashing them (`hash_file`, MD5) and the parallel hashing
  driver (`hash_files_parallel`, rayon, its progress counter) are I/O and
  concurrency. Hash strings are inputs to the model.
- The directory walk (walkdir, metadata, `Path::exists`, symlink following)
  and `format_system_time` are I/O. The walk is modelled as a given sequence
  of reports (a file that passed the filter, or an error). The check that the
  roots exist, which fails with `PathNotFound`, is not modelled.
- Atomics and locks in `AppState` are modelled as one immutable record.
  Interleavings of concurrent calls are not modelled. `generate_scan_id`
  reads the clock, so the fresh id is a parameter of `State.TryStartScan`.
- The getters `is_scanning`, `is_cancel_requested` and `current_scan_id` are
  the record's fields.
- `ScanProgress`, `ScanPhase`, serde serialisation, the `Display` texts of
  `ScannerError`, and `From<ScannerError> for String` are left out. They are
  formatting with no logic beyond the user messages, which are modelled.
- `ScannerError::Io` carries a `std::io::Error`. The model carries its display
  text as a string.
- The Tauri commands, the application entry point and the benchmarks are left
  out: they only wire the core to the frontend.
- Types.WastedSpace: sizes and counts are unbounded naturals. The source's
  `u64` multiplication could overflow, and its overflow is not modelled.
- Types.TotalWastedAppend: the `u64` sum is unbounded here; overflow is not
  modelled.
- Types.TotalFileCountAppend: the `u64` sum is unbounded here; overflow is not
  modelled.
- Types.NewScanResult: both totals are unbounded naturals; `u64` overflow is
  not modelled.
- Scanner.CountFilesInGroups: the `usize` sum is unbounded here.
- Duplicates.FindDuplicates: the order of groups with equal wasted space
  follows `HashMap` iteration in the source, which is unspecified. The model
  iterates in order of first appearance and sorts stably, but its contract
  promises only descending wasted space, not a particular order among ties.
- Scanner.GroupBySize: the result is a Dafny map, which has no iteration
  order, like the source's `HashMap`.
- Filter.Extension: paths are `/`-separated text, as on Unix. On Windows
  `Path::extension` also splits on `\`; that separator is not modelled.
  Trailing separators, `.` components and non-UTF-8 names (for which
  `to_str` fails) are not normalised or modelled.
- Filter.Normalize: `to_lowercase` is modelled for ASCII letters only. Other
  characters are left unchanged, although Unicode case mapping would change
  some of them.
- Filter.MatchesIgnoresCase: holds for the ASCII lower-casing of the model.
