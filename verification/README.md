# Allergic Pack node algorithms in Dafny

This project models the pure algorithms inside the ComfyUI "Allergic Pack"
nodes and proves what they promise. Directory listings, correlation scores
and the command line are inputs to the model. Images, audio, tensors and
HTTP are not part of it.

| module | file | what it models |
|---|---|---|
| `Wrappers` | `wrappers.dfy` | `Option` and `Result` |
| `Text` | `text.dfy` | Python's `str.strip()`, `split` on one character, `join`, `startswith`, ASCII `lower()`, and string ordering |
| `PathSanitizer` | `sanitizer.dfy` | `sanitize_path` of the shared utilities and the Master Batcher's copy. Both are one pipeline, parameterised by the characters they delete |
| `MasterBatcher` | `batcher.dfy` | the image-file filter and alphabetical sorts, the batch map, the batch report of `load_batch`, and the per-folder summary of "Calculate Batches" |
| `VaceContext` | `vace.dfy` | the VACE context manager: frame count, keyframe positions, window-size choice, overlapping windows, alignment quality, the keyframe mask, and the input checks of `process` |
| `KeyDetection` | `keydetect.dfy` | Krumhansl-Schmuckler key selection: chroma rotation, the scan over 24 candidates, the first-wins tie-break, the C major fallback, and the key text |
| `EnvironmentSnapshot` | `snapshot.dfy` | RememberMe's version stripping, the grouping of command-line arguments, and the comparison key without the `Captured:` line |

How the model treats the parts it cannot compute:

- **Directory listings.** A listing is a map from directory path to its entries. Each entry carries `os.path.isfile`'s answer. A path that is not a key is not a directory.
- **Correlation.** Pearson correlation is an arbitrary function returning `Option<real>`. `None` stands for NaN, which never compares greater. The initial minus infinity is "nothing found yet".
- **Mask values.** Mask entries are `real` values, 0.0 or 1.0.
- **Python indexing.** The model follows Python: a negative mask position counts from the end, and one below `-len` raises.

Two consequences of the code that a reader may not expect:

- `detect_key` keeps the first highest score in the scan order C major, C minor, C# major, C# minor, and so on (AudioAnalyzer/audio_analyzer.py:39-52). At equal shift the major key wins a tie, and a lower shift wins a tie against any key at a higher shift.
- When every correlation is NaN, no comparison succeeds and `detect_key` answers C major.

## Model

| member | source | states |
|---|---|---|
| Text.StripFacts | allergic_utils.py:17 | `strip()` gives "" exactly for all-whitespace text, leaves no whitespace at either end, and introduces no character |
| Text.TrimStartFacts | allergic_utils.py:17 | left-stripping leaves a suffix that does not start with a stripped character, and every dropped character was one |
| Text.TrimEndFacts | allergic_utils.py:59 | `rstrip(chars)` leaves a prefix that does not end with a stripped character, and every dropped character was one |
| Text.SplitChars | allergic_utils.py:56 | the pieces of `split(sep)` hold only characters of the string and never the separator |
| Text.JoinChars | allergic_utils.py:63 | a join holds only characters of the pieces and the separator |
| Text.JoinSeparatorsIsolated | allergic_utils.py:63 | joining non-empty, separator-free pieces gives text that is empty only for no pieces, does not start or end with the separator, and never has two separators side by side |
| Text.JoinSplit | RememberMe/remember_me.py:142-143 | joining the pieces of a split gives back the original text |
| Text.SplitJoin | RememberMe/remember_me.py:142-143 | splitting a join of separator-free pieces gives back the pieces |
| Text.SplitAround | AudioAnalyzer/audio_analyzer.py:83 | splitting `a + sep + b` splits each side on its own |
| Text.SplitNoSeparator | RememberMe/remember_me.py:38 | text without the separator splits into itself alone |
| Text.SplitHead | RememberMe/remember_me.py:38 | the first piece of a split is the prefix before the first separator |
| Text.LexLeTotal | MasterBatcher/master_batcher.py:166-169 | any two strings are ordered one way or the other |
| Text.LexLeTransitive | MasterBatcher/master_batcher.py:166-169 | string ordering is transitive |
| PathSanitizer.UnquoteQuoted | allergic_utils.py:17-20 | wrapping text in `"` or `'` and unquoting gives the text back, so exactly one layer goes |
| PathSanitizer.UnquoteChars | allergic_utils.py:18-20 | unquoting only removes characters |
| PathSanitizer.DriveMatchIsLongestPrefix | allergic_utils.py:23-30 | the anchored match of `[A-Za-z]:\\?` is the longest prefix of the unquoted text that the pattern accepts, and it is empty exactly when no prefix is accepted |
| PathSanitizer.UtilsForbiddenIsSafe | allergic_utils.py:34 | the deleted characters include no letter, `:` or `\`, so deletion cannot touch a drive prefix |
| PathSanitizer.BatcherForbiddenIsSafe | MasterBatcher/master_batcher.py:115 | the same for the Master Batcher's longer list |
| PathSanitizer.RemoveEach | allergic_utils.py:36-37 | deleting the forbidden characters one `replace` at a time deletes exactly all of them at once |
| PathSanitizer.WithoutChars | allergic_utils.py:34-37 | deletion keeps exactly the characters not in the forbidden list |
| PathSanitizer.WithoutTwice | allergic_utils.py:36-37 | deleting one list and then another deletes their union |
| PathSanitizer.DropControlsChars | allergic_utils.py:40-43 | the filter keeps exactly the characters outside code points 0-31 and 127-159 |
| PathSanitizer.ReplacePairsChars | allergic_utils.py:46-47 | one `replace` pass over pairs neither loses nor adds a character kind |
| PathSanitizer.ReplacePairsShrinks | allergic_utils.py:46-47 | text that still holds a pair gets strictly shorter in one pass, so the `while` loop ends |
| PathSanitizer.CollapseRunsFacts | allergic_utils.py:46-47 | after the loop no pair is left and the same character kinds remain |
| PathSanitizer.CollapseRunsIsSqueeze | allergic_utils.py:46-47 | the loop equals an independent definition that turns each maximal run of the character into one |
| PathSanitizer.ToBackslashesChars | allergic_utils.py:51 | after the replace no `/` is left, and `\` is the only character it introduces |
| PathSanitizer.CleanComponentsShape | allergic_utils.py:56-61 | every kept component is non-empty and ends in neither `.` nor space |
| PathSanitizer.CleanComponentsChars | allergic_utils.py:56-61 | kept components hold only characters of the original components |
| PathSanitizer.CleanBodyChars | allergic_utils.py:34-63 | the cleaned text holds only `\` and input characters that are not forbidden, not control characters and not `/` |
| PathSanitizer.JoinedComponentsShape | allergic_utils.py:56-63 | the joined components neither start nor end with `\`, have no `\\` pair, and split back into well-formed components |
| PathSanitizer.CleanBodyShape | allergic_utils.py:51-63 | the cleaned text after the drive prefix has the same shape: no `\\`, no leading or trailing `\`, well-formed components |
| PathSanitizer.CleanBodyKeepsCleanText | allergic_utils.py:34-63 | text the clean-up has nothing to remove from passes through unchanged. Such text may hold several `\` separated components, provided none is empty or ends in `.` or space |
| PathSanitizer.SanitizeChars | allergic_utils.py:6-69 | the result holds only input characters and `\`, and no forbidden, control or `/` character |
| PathSanitizer.SanitizeShape | allergic_utils.py:23-64 | with a drive the result is the letter, `:\` and the cleaned text. Without one it is the cleaned text or "". Either way it has no `\\` pair and well-formed components |
| PathSanitizer.SanitizeEmpty | allergic_utils.py:64-67 | the result is "" exactly when no drive matched and the cleaned text is blank. Otherwise it is not blank |
| PathSanitizer.SanitizeUnwrapsCleanText | allergic_utils.py:17-20 | a stripped text whose unquoted inside is already clean and driveless sanitises to that inside, for single- and multi-component paths alike |
| PathSanitizer.SanitizeKeepsCleanPath | allergic_utils.py:6-69 | a clean, unquoted relative path of one or more components, such as `a\b`, is its own sanitised form |
| PathSanitizer.SanitizeKeepsCleanDrivePath | allergic_utils.py:22-67 | a drive prefix `X:\` followed by a clean relative path is its own sanitised form |
| PathSanitizer.QuotedStaysClean | allergic_utils.py:17-20 | single quotes around clean text leave it clean when `'` is not deleted |
| PathSanitizer.UnwrapOneLayer | allergic_utils.py:17-20 | sanitising `'x'` for clean, driveless `x` gives `x` |
| PathSanitizer.SanitizeNotIdempotent | allergic_utils.py:17-20 | sanitising is not idempotent: `''x''` gives `'x'`, which then gives `x` |
| PathSanitizer.SanitizePathClean | allergic_utils.py:34-63 | the shared sanitiser never emits one of its six deleted characters, a control character, `/` or a `\\` pair |
| PathSanitizer.BatcherSanitizePathClean | MasterBatcher/master_batcher.py:96-145 | the Master Batcher's copy never emits any of its 23 deleted characters, a control character, `/` or a `\\` pair |
| MasterBatcher.Extension | MasterBatcher/master_batcher.py:160 | `splitext`'s extension is empty, or a final suffix that starts with its only dot and follows a non-dot character |
| MasterBatcher.ExtensionOfStemAndSuffix | MasterBatcher/master_batcher.py:160 | the extension of a stem with a non-dot character plus a dot-led, dot-free suffix is that suffix |
| MasterBatcher.ExtensionWithoutDot | MasterBatcher/master_batcher.py:160 | a name without a dot has no extension |
| MasterBatcher.KeptNamesMembers | MasterBatcher/master_batcher.py:158-164 | a name is kept exactly when some accepted entry carries it |
| MasterBatcher.KeptNamesAppend | MasterBatcher/master_batcher.py:158-164 | filtering keeps listing order |
| MasterBatcher.ImageNamesMembers | MasterBatcher/master_batcher.py:158-164 | a name is listed exactly when it names a regular file whose lower-cased extension is an image extension |
| MasterBatcher.Insert | MasterBatcher/master_batcher.py:166-169 | inserting adds exactly one element |
| MasterBatcher.InsertSorted | MasterBatcher/master_batcher.py:166-169 | inserting into a sorted list keeps it sorted |
| MasterBatcher.SortNames | MasterBatcher/master_batcher.py:166-169 | the sort is a permutation, ordered by lower-cased name ascending, or descending with `reverse=True` |
| MasterBatcher.GetImageFiles | MasterBatcher/master_batcher.py:147-191 | a path that is not a directory gives no files. Otherwise the files are a permutation of the image names, sorted as the method asks, and in listing order for the other methods |
| MasterBatcher.NumBatchesBounds | MasterBatcher/master_batcher.py:215 | `ceil(n / k)` is the least batch count covering `n` files, and 0 only for no files |
| MasterBatcher.ChunksCount | MasterBatcher/master_batcher.py:215-222 | a folder of `n` files yields `ceil(n / k)` batches |
| MasterBatcher.ChunksIndex | MasterBatcher/master_batcher.py:216-221 | batch `i` is the slice from `i * k` to `min(i * k + k, n)` |
| MasterBatcher.ChunksSizes | MasterBatcher/master_batcher.py:216-221 | every batch holds 1 to `k` files, and all but the last exactly `k` |
| MasterBatcher.ChunksFlatten | MasterBatcher/master_batcher.py:216-221 | the batches, concatenated in order, give back the file list |
| MasterBatcher.DescribeChunks | MasterBatcher/master_batcher.py:215-222 | a folder's descriptors: `ceil(n / k)` of them, all naming the folder, sized 1 to `k` with all but the last full, together holding the sorted list |
| MasterBatcher.FolderBatchesShape | MasterBatcher/master_batcher.py:203-213 | a line contributes nothing exactly when it sanitises to "", is not a directory or has no image files. Otherwise it contributes its folder's descriptors |
| MasterBatcher.BatchesOfFoldersAppend | MasterBatcher/master_batcher.py:202-222 | descriptor order follows line order |
| MasterBatcher.BatchesOfFoldersMembers | MasterBatcher/master_batcher.py:202-222 | every descriptor comes from one of the lines |
| MasterBatcher.BatchMapDescriptors | MasterBatcher/master_batcher.py:202-222 | every descriptor names a non-empty directory path among the folders and holds 1 to `k` files |
| MasterBatcher.BuildBatchMapDescriptors | MasterBatcher/master_batcher.py:193-224 | every descriptor of the batch map names the sanitised form of an input line that is a directory, and holds 1 to `k` files |
| MasterBatcher.LoadedCountAll | MasterBatcher/master_batcher.py:261-298 | the loaded count equals the batch size exactly when no file of the batch fails to open |
| MasterBatcher.LoadBatch | MasterBatcher/master_batcher.py:233-331 | past the end, the count is 0 and the status is `DONE`, or `EMPTY` for an empty map. Otherwise it reports the batch's folder and how many of its files loaded. The total and the index are always reported |
| MasterBatcher.Tally | MasterBatcher/master_batcher.py:352-362 | counting a descriptor adds at most one entry and keeps the existing entries' folders |
| MasterBatcher.TallyTotals | MasterBatcher/master_batcher.py:352-362 | counting a descriptor adds one batch and its files to the totals |
| MasterBatcher.TallyFolders | MasterBatcher/master_batcher.py:352-362 | counting a descriptor adds its folder and never lists a folder twice |
| MasterBatcher.TallyLookup | MasterBatcher/master_batcher.py:355-362 | counting a descriptor grows its own folder's entry by one batch and its files, and leaves every other folder's entry alone |
| MasterBatcher.Summarize | MasterBatcher/master_batcher.py:352-364 | the summary's batch counts add up to the number of descriptors, each folder appears once, and the folders are exactly those of the batch map |
| MasterBatcher.SummarizeFiles | MasterBatcher/master_batcher.py:352-364 | the summary's file counts add up to the files of all descriptors |
| MasterBatcher.SummarizeCounts | MasterBatcher/master_batcher.py:352-364 | each folder's entry counts exactly that folder's descriptors and their files. A folder listed on two lines is merged into one entry |
| MasterBatcher.Report | MasterBatcher/master_batcher.py:352-369 | the reported total equals the sum of the per-folder batch counts, with each folder listed once |
| VaceContext.KeyframesSpanSequence | VaceContextManager/vace_context_manager.py:87-90 | keyframes start at frame 0 and are `m` apart. The last one is frame `total_frames - 1`, and with `m >= 1` all lie inside the sequence |
| VaceContext.KeyframeMembership | VaceContextManager/vace_context_manager.py:90 | a frame is a keyframe exactly when it is a non-negative multiple of `m` with quotient below `n` |
| VaceContext.MultipleCandidatesFacts | VaceContextManager/vace_context_manager.py:122-127 | every multiple `spacing * j` with `j` in 1..9 and at least 16 is a candidate, scored by its distance from the requested size |
| VaceContext.Fitting | VaceContextManager/vace_context_manager.py:133 | the filtered list holds exactly the candidates no larger than the sequence |
| VaceContext.FittingFacts | VaceContextManager/vace_context_manager.py:122-133 | the fitting candidates are well scored, and include the requested size when it fits and every fitting multiple |
| VaceContext.FirstMinIndex | VaceContextManager/vace_context_manager.py:136 | `min` with a key returns a lowest-scored element, the first of equal scores |
| VaceContext.Best | VaceContextManager/vace_context_manager.py:136 | the chosen candidate is in the list and has the lowest score |
| VaceContext.FindOptimalWindowSizeFits | VaceContextManager/vace_context_manager.py:118-138 | the window size never exceeds the sequence, and is the requested size whenever that fits |
| VaceContext.FindOptimalWindowSizeTooLarge | VaceContextManager/vace_context_manager.py:118-138 | when the requested size is too large, the result is the fitting multiple of the spacing closest to it, or the whole sequence when no multiple fits |
| VaceContext.WindowsShape | VaceContextManager/vace_context_manager.py:140-162 | the windows start at the first frame and the last ends at `total_frames`. Each has `start < end <= total_frames` and length at most the window size. All but the last are full-sized, and each next one starts `overlap` before the previous end |
| VaceContext.WindowsCons | VaceContextManager/vace_context_manager.py:152-160 | one loop step: a full window followed by the windows from `end - overlap` keeps the chain |
| VaceContext.HitsBounds | VaceContextManager/vace_context_manager.py:170-178 | the aligned boundaries number at most two per window. There are exactly two per window iff every boundary is a keyframe, and none iff no boundary is |
| VaceContext.AlignmentQualityRange | VaceContextManager/vace_context_manager.py:164-180 | alignment quality lies in [0, 1] |
| VaceContext.AlignmentQualityPerfect | VaceContextManager/vace_context_manager.py:164-180 | with windows and keyframes, the quality is 1 exactly when every window start and end is a keyframe |
| VaceContext.AlignmentQualityNone | VaceContextManager/vace_context_manager.py:164-180 | with windows and keyframes, the quality is 0 exactly when no boundary is a keyframe |
| VaceContext.ChosenSizeAdvances | VaceContextManager/vace_context_manager.py:92-107 | under the declared input ranges the chosen window size lets the window loop advance |
| VaceContext.ScheduleShape | VaceContextManager/vace_context_manager.py:63-116 | the schedule has `(n - 1) * m + 1` frames, the last keyframe on the last frame, windows covering frame 0 to the end chained with the overlap, and a quality in [0, 1] |
| VaceContext.MarkKeyframesSpec | VaceContextManager/vace_context_manager.py:195-197 | marking fails exactly when a position lies below `-len`. Otherwise it keeps the length, zeroes exactly the frames some position marks (a negative one counted from the end) and keeps the rest |
| VaceContext.KeyframeMask | VaceContextManager/vace_context_manager.py:182-199 | the mask of a schedule exists, has one entry per frame, and is 0 on multiples of `m` and 1 elsewhere |
| VaceContext.KeyframeMaskMembership | VaceContextManager/vace_context_manager.py:182-199 | the mask is 0 exactly on the keyframe positions |
| VaceContext.ProcessOutcome | VaceContextManager/vace_context_manager.py:201-239 | `process` rejects fewer than 2 keyframes first, then a multiplier below 6. Otherwise the window loop advances, and `process` succeeds with the optimal alignment of the whole sequence, so `ScheduleShape` applies to its schedule. Its mask is 0 exactly on the keyframes |
| KeyDetection.RollIndex | AudioAnalyzer/audio_analyzer.py:40 | element `j` of `np.roll(v, k)` is element `(j - k) mod 12` of `v` |
| KeyDetection.RollBack | AudioAnalyzer/audio_analyzer.py:40 | `np.roll(chroma, -shift)[i]` is `chroma[(i + shift) mod 12]` |
| KeyDetection.RollCompose | AudioAnalyzer/audio_analyzer.py:40 | rolling by `a`, then by `b`, rolls by `a + b` |
| KeyDetection.RollInverse | AudioAnalyzer/audio_analyzer.py:40 | a roll by 0 changes nothing, and rolling back undoes a roll |
| KeyDetection.ScanVisitsEveryKeyOnce | AudioAnalyzer/audio_analyzer.py:39-52 | the scan visits each of the 24 keys exactly once: the major and minor keys of pitch class `p` are candidates `2 * p` and `2 * p + 1`, and no two candidates carry the same key |
| KeyDetection.BestUpTo | AudioAnalyzer/audio_analyzer.py:43-52 | the running best is a scanned candidate with a non-NaN score |
| KeyDetection.BestUpToSpec | AudioAnalyzer/audio_analyzer.py:35-52 | the scan finds nothing exactly when every score is NaN. Otherwise it finds exactly the first highest non-NaN score, since only a strictly greater score replaces the best |
| KeyDetection.TracksStep | AudioAnalyzer/audio_analyzer.py:43-52 | one strict-`>` comparison keeps the running state in step with the scan |
| KeyDetection.DetectKey | AudioAnalyzer/audio_analyzer.py:25-54 | the loop over 12 shifts, major before minor, returns the label of the scan's answer, or C major when it finds nothing |
| KeyDetection.SelectedKey | AudioAnalyzer/audio_analyzer.py:35-54 | the key is a pitch-class name and the scale is `major` or `minor`. With every score NaN it is C major. Otherwise it is the label of the first highest candidate |
| KeyDetection.PitchClassesHaveNoSpace | AudioAnalyzer/audio_analyzer.py:21-22 | no pitch-class name contains a space |
| KeyDetection.KeyscaleSplits | AudioAnalyzer/audio_analyzer.py:83 | the key text is the key, one space and the scale, and splits back into them |
| KeyDetection.AnalyzeKey | AudioAnalyzer/audio_analyzer.py:81-89 | the key and scale fields are the detected ones, and the keyscale splits back into them |
| EnvironmentSnapshot.StripLocalVersionPrefix | RememberMe/remember_me.py:38 | the result is a prefix of the version with no `+`, followed in the version by `+` unless it is the whole version |
| EnvironmentSnapshot.StripLocalVersionPlain | RememberMe/remember_me.py:38 | a version without `+`, the empty one included, is returned unchanged |
| EnvironmentSnapshot.StripLocalVersionIdempotent | RememberMe/remember_me.py:38 | stripping twice equals stripping once |
| EnvironmentSnapshot.GroupArgsFlatten | RememberMe/remember_me.py:117-131 | from any loop state, the emitted groups concatenate to the earlier groups, then the open group, then the remaining arguments |
| EnvironmentSnapshot.GroupArgsShape | RememberMe/remember_me.py:117-131 | from any reachable loop state the loop emits well-formed groups |
| EnvironmentSnapshot.GroupsSpec | RememberMe/remember_me.py:117-131 | the groups hold exactly `argv[1:]` in order. Each `--` argument opens a group that absorbs the following non-`--` arguments, and each argument before the first `--` has a group of its own |
| EnvironmentSnapshot.GroupLinesSplit | RememberMe/remember_me.py:123-131 | each group line is two spaces plus its arguments, and splits back into the group when no argument holds a space |
| EnvironmentSnapshot.CliSectionShown | RememberMe/remember_me.py:113-131 | the CLI section appears exactly when some argument after `argv[0]` starts with `--`. It is then a blank line, the heading, and one line per group |
| EnvironmentSnapshot.KeepLinesMembers | RememberMe/remember_me.py:143 | a line is kept exactly when it is a snapshot line not starting with `Captured:` |
| EnvironmentSnapshot.KeepLinesAppend | RememberMe/remember_me.py:143 | the filter keeps line order |
| EnvironmentSnapshot.KeepLinesUntouched | RememberMe/remember_me.py:143 | lines without a `Captured:` line are all kept |
| EnvironmentSnapshot.KeptLinesSingle | RememberMe/remember_me.py:142-143 | no kept line holds a line break |
| EnvironmentSnapshot.ComparisonKeyLines | RememberMe/remember_me.py:142-143 | the key's lines are exactly the snapshot's lines that do not start with `Captured:`, in order. The key is "" when there are none |
| EnvironmentSnapshot.ComparisonKeyIdempotent | RememberMe/remember_me.py:142-143 | taking the comparison key of a comparison key changes nothing |

## Left out

- Tempo estimation with librosa, chroma extraction, PyAV decoding and sample normalisation (AudioAnalyzer/audio_analyzer.py:68-79, 92-234). These are foreign-library floating-point numerics; the chroma vector and the correlation function are inputs.
- `np.corrcoef` itself. It needs square roots and IEEE floats, so it is an arbitrary function whose `None` result stands for NaN.
- KeyDetection.DetectKey: requires a chroma vector of exactly 12 entries. `np.roll` works on any length, but `np.corrcoef` refuses vectors whose length differs from the 12-entry profiles.
- Image loading, EXIF transposition, resizing, alpha masks and tensors in `load_batch` (MasterBatcher/master_batcher.py:257-331). A batch's files either load or fail, given as a set of failing files.
- MasterBatcher.GetImageFiles: the modified, created and random sort orders are folded into `ListingOrder`, which keeps the listing's order, because they depend on file times and on randomness. The stability of the name sorts is not stated either (see `SortNames` below).
- MasterBatcher.SortNames: stability is not stated. The insertion sort keeps equal keys in input order, but no lemma says so.
- The lower-casing `str.lower()` is modelled on ASCII letters only. That is exact for the extension check, but approximate for sort keys with non-ASCII letters.
- A folder that `os.listdir` cannot read is treated like a path that is not a directory. Both contribute nothing.
- The "Calculate Batches" endpoint has no contract of its own. Its model only clamps `batch_size` to at least 1, reads `sort_method` with `ParseSortMethod`, and composes `BuildBatchMap` with `Report`. The JSON transport, the HTTP route and the error response are left out.
- `IS_CHANGED`, `INPUT_TYPES`, the node registration tables, prints and warnings. These are host-runtime plumbing.
- The VACE encoder and context-options constructor (VaceContextManager/vace_context_manager.py:57-61, 243-260). They live in modules that are not part of this model.
- VaceContext.Process: requires the declared input ranges, window size at least 16 and overlap from 0 to 15. The node's own overlap range (1 to 8) lies inside. Outside these ranges the source's window loop can fail to advance, which a total function cannot express.
- The alignment quality is an exact `real` quotient. The source divides as a Python float, so rounding is not modelled.
- The batch count `math.ceil(len(image_files) / batch_size)` is a float division in the source. The model's exact integer ceiling agrees with it only while the file count stays below 2^53.
- The interpolation mask is a sequence of reals rather than a float32 tensor. A negative frame count, which `torch.ones` refuses, is modelled as `None`.
- RememberMe's torch, CUDA and package probing, timestamps, `sys.version` and `_get_package_version`. These are environment reads; only the text helpers are modelled.
- `__init__.py`, FolderFileCounter/folder_file_counter.py and IncrementorPlus/incrementor_plus.py. These are module discovery, directory counting and an identity node.
- Text is `seq<char>`, and Dafny's `char` excludes lone surrogates. Python strings that `os.listdir` decodes with `surrogateescape` can hold them, so such file names are outside the model.
- The non-string branch of both sanitisers (`str(path_str)`), which depends on Python's dynamic typing.
