# Brain-volume cohort tools, modelled in Dafny

This project models the label and cohort logic of a small set of neuroimaging scripts:

- **Cohort availability** (`check_files`). A subject of the study directory is kept when every entry of a files list resolves to an existing file. The entry `T1` stands for the subject's T1 image, `T1_<subject>.nii.gz`.
- **FreeSurfer statistics** (`get_subject_freesurfer_stats`, `get_freesurfer_stats`).
  - An `aseg.stats` report is read line by line and comment lines starting with `#` are dropped.
  - Each remaining line is split on whitespace. Its ten tokens are bound to the ten columns `Index … normRange`.
  - The rows are keyed by their `SegId`.
  - Over a cohort, the subjects are chosen from an explicit list, or else from the sorted directory listing, optionally cut to the first `num_subjects`. Each subject's table is read in turn, and the result maps subject to `to_dict()` of its table.
- **Brain volume** (`calculate_brain_vol_FSmask` and the counting part of `calculate_brain_vol_T1`). The brain volume is (all voxels − zero voxels) × the volume of one voxel.
- **One-hot expansion** (`int_to_onehot`). It computes the ascending distinct labels of a volume (`np.unique`). It then builds a freshly allocated stack of boolean masks, mask `i` true exactly where the volume equals `labels[i]`.

Modules:

| file | module | contents |
|---|---|---|
| `wrappers.dfy` | `Wrappers` | `Option`, `Result` |
| `seq_facts.dfy` | `SeqFacts` | small prefix facts about sequences |
| `text.dfy` | `Text` | Python's `str.startswith`, `str.split()`, string order and `sorted`, `s[:n]` |
| `paths.dfy` | `Paths` | POSIX `os.path.join` |
| `files_names.dfy` | `FilesNames` | file-name constants and `T1(subject)` |
| `check_files.dfy` | `CheckFiles` | the availability check |
| `freesurfer_stats.dfy` | `FreeSurferStats` | report parsing, `to_dict`, cohort aggregation |
| `volumes.dfy` | `Volumes` | label volumes, voxel counting, brain volume |
| `onehot.dfy` | `OneHot` | `np.unique` and the mask stack |

The environment is passed in as values:

- The filesystem of `check_files` is a `set<string>` of existing file paths.
- The filesystem of the aggregation is a `map` from report path to the report's lines.
- The directory listing is an input sequence, in whatever order the listing gives.
- A NIfTI volume is a `Volume`: its shape `(nx, ny, nz)` and its voxels, flat in C order, as integers.
- Voxel sizes are exact `real`s.

Modelling choices:

- **`SegId` keys.** The table is keyed by the `SegId` text token, because the code calls `set_index` on a frame of strings and never converts to numbers.
- **Malformed and duplicate rows.** A data line with other than ten tokens is refused as `MalformedRow`, and a repeated `SegId` as `DuplicateKey`. pandas would pad or raise for the first. For the second, `set_index` keeps both rows under the same index value and `to_dict()` then keeps only the last one. The model makes both rejections explicit.
- **The name error at `read_freesurfer_data.py:23`.** Line 23 indexes an undefined name (`df_stats`). The model keys the frame just built by its own `SegId` column, which is what the line evidently means.
- **`num_subjects` and `subject_list`.** `num_subjects` follows Python truthiness: `0` (or `False`) means "all". A non-zero value slices with Python's `[:n]` rules, so a negative `n` drops entries from the end. An empty `subject_list` is falsy and therefore means "no explicit list".
- **First failure ends the run.** A missing report (`FileNotFound`) or a refused one (`BadReport`) ends the cohort run with that error, as the exception would.

## Model

| member | source | states |
|---|---|---|
| Text.Split | read_freesurfer_data.py:21 | `line.split()`: every piece returned is a non-empty run of non-space characters; its behaviour on every string is fixed by `SplitSep`, `SplitToken` and the empty string |
| Text.SplitToken | read_freesurfer_data.py:21 | a token followed by a separator or by nothing comes out first, whole |
| Text.SplitSep | read_freesurfer_data.py:21 | any whitespace character separates: the tokens of `a + [c] + b` are those of `a` followed by those of `b`, so runs of spaces, tabs, leading blanks and the trailing newline add no token and lose none |
| Text.SplitDropsNewline | read_freesurfer_data.py:19-21 | the newline `readlines()` leaves at the end of a line adds no token |
| Text.SplitJoin | read_freesurfer_data.py:21 | round trip: splitting tokens joined by single spaces gives the same tokens back |
| Text.IsSpace | read_freesurfer_data.py:21 | the separators of `str.split()`, the characters for which `str.isspace()` holds; its role is stated by `SplitSep` and `SplitToken` |
| Text.LessEq | read_freesurfer_data.py:46 | Python's `<=` on strings, code point by code point with a proper prefix first; it is a total order by `LessEqReflexive`, `LessEqTotal`, `LessEqTransitive` and `LessEqAntisymmetric`, and `LessEqPrefix` puts prefixes first |
| Text.LessEqReflexive | read_freesurfer_data.py:46 | every string is `<=` itself |
| Text.LessEqTotal | read_freesurfer_data.py:46 | any two strings are comparable, so `sort()` has an order to follow |
| Text.LessEqTransitive | read_freesurfer_data.py:46 | `a <= b` and `b <= c` give `a <= c` |
| Text.LessEqAntisymmetric | read_freesurfer_data.py:46 | `a <= b` and `b <= a` only for equal strings, so the sorted order is unique |
| Text.LessEqPrefix | read_freesurfer_data.py:46 | a string is `<=` every string it is a prefix of |
| Text.SortStrings | read_freesurfer_data.py:46 | `subjects.sort()`: the result is ascending in Python's string order and is a permutation of the listing |
| Text.SortedPermutationUnique | read_freesurfer_data.py:46 | any two ascending arrangements of the same multiset are equal, so the sorted listing does not depend on the listing's order |
| Text.PrefixSlice | read_freesurfer_data.py:48 | `s[:n]` is a prefix of `s`; its length is `n` capped at the length of `s` for `n ≥ 0`, and the length of `s` plus `n` (at least 0) for negative `n` |
| Paths.Join | check_files.py:21-23 | computes `os.path.join` of two components; its contract is carried by `Paths.JoinSpec` |
| Paths.JoinSpec | check_files.py:21-23 | `os.path.join` ends with its last component; an absolute component replaces the path; a relative one is appended, with one `/` inserted unless the path is empty or already ends in `/` |
| FilesNames.T1 | files_names.py:19-20 | computes `'T1_' + subject + '.nii.gz'`; its contract is carried by `T1Shape`, `T1RoundTrip` and `T1Injective` |
| FilesNames.T1Shape | files_names.py:19-20 | `T1(s)` starts with `T1_`, ends with `.nii.gz` and is ten characters longer than `s` |
| FilesNames.SubjectOfT1 | files_names.py:19-20 | inverse of `T1`: whatever it returns names the given file under `T1`; it returns nothing only for names that cannot be T1 names |
| FilesNames.T1RoundTrip | files_names.py:19-20 | the subject is always recovered from its T1 name |
| FilesNames.T1Injective | files_names.py:20 | distinct subjects get distinct T1 names |
| CheckFiles.Classify | check_files.py:20-23 | the entry is the T1 shorthand exactly when it equals `'T1'`; any other entry is kept as a relative path |
| CheckFiles.Resolve | check_files.py:20-23 | the path tested for one entry, `data_dir/subject/T1(subject)` for `'T1'` and `data_dir/subject/entry` otherwise; its contract is carried by `T1EntryIsShorthand` and `Paths.JoinSpec` |
| CheckFiles.Available | check_files.py:17-26 | the listed subjects that have every file, in listing order; its contract is carried by `AvailableMembership`, `AvailableIsSubsequence` and the lemmas below |
| CheckFiles.T1EntryIsShorthand | check_files.py:20-23 | the entry `'T1'` resolves to the same path as `T1(subject)` written out |
| CheckFiles.CheckFiles | check_files.py:14-28 | the nested loops return exactly `Available`: the listed subjects whose every entry resolves to an existing file, in listing order |
| CheckFiles.AvailableMembership | check_files.py:17-26 | a subject is in the result iff it is listed and every entry of `files_list` resolves to an existing file |
| CheckFiles.AvailableIsSubsequence | check_files.py:14-28 | the result is a subsequence of the listing (listing order kept, no sorting) and no longer than it |
| CheckFiles.NoRequirementsKeepsAll | check_files.py:25-26 | with an empty files list every listed subject is returned |
| CheckFiles.MoreRequirementsFewerSubjects | check_files.py:19-26 | requiring a superset of files yields a subsequence of the result: subjects are only removed |
| CheckFiles.DuplicatesIrrelevant | check_files.py:19-25 | two files lists with the same entries, repeated or reordered, give the same result |
| FreeSurferStats.RowOf | read_freesurfer_data.py:16-17 | the k-th token of a line is bound to the k-th of the ten columns, `SegId` being the second; `RowOfRowTokens` is the reverse round trip |
| FreeSurferStats.RowOfRowTokens | read_freesurfer_data.py:16-17 | a row is determined by its ten cells: binding a row's cells back to the columns gives the same row |
| FreeSurferStats.IsComment | read_freesurfer_data.py:20 | `line.startswith('#')`; its role is stated by `DataLines`, `DataLinesSingle` and `ParseStatsRows` |
| FreeSurferStats.DataLines | read_freesurfer_data.py:19-20 | the kept lines are exactly those not starting with `#`, and there are no more of them than lines |
| FreeSurferStats.DataLinesAppend | read_freesurfer_data.py:20 | filtering a concatenation filters each part: the kept lines stay in their order, duplicates included |
| FreeSurferStats.DataLinesSingle | read_freesurfer_data.py:20 | a single line is kept exactly when it does not start with `#` |
| FreeSurferStats.Tokenise | read_freesurfer_data.py:21 | one token list per kept line, the line's `split()` |
| FreeSurferStats.BuildTable | read_freesurfer_data.py:22-23 | builds the `SegId`-keyed table from the token lists; its contract is carried by `BuildTableSucceeds`, `BuildTableKeys`, `BuildTableEntries` and `BuildTableFailure` |
| FreeSurferStats.BuildTableSucceeds | read_freesurfer_data.py:22-23 | the table is built iff every row has ten tokens and no `SegId` repeats |
| FreeSurferStats.BuildTableKeys | read_freesurfer_data.py:22-23 | a built table's keys are exactly the rows' `SegId`s, one entry per row |
| FreeSurferStats.BuildTableEntries | read_freesurfer_data.py:22-23 | each row is stored under its own `SegId`, holding its tokens bound to the columns |
| FreeSurferStats.BuildTableFailure | read_freesurfer_data.py:22-23 | a refusal names an offending row: a malformed row preceded by well-formed ones only, or a `SegId` carried by two rows |
| FreeSurferStats.ParseStats | read_freesurfer_data.py:16-23 | the table of one report; its contract is carried by `ParseStatsSucceeds` and `ParseStatsRows` |
| FreeSurferStats.ParseStatsSucceeds | read_freesurfer_data.py:16-23 | a report parses iff each non-comment line has ten tokens and no two carry the same `SegId` |
| FreeSurferStats.ParseStatsRows | read_freesurfer_data.py:16-23 | a parsed report has one entry per non-comment line, under that line's `SegId`, whose cells are the line's tokens in column order |
| FreeSurferStats.ToDict | read_freesurfer_data.py:53 | `DataFrame.to_dict()`; its contract is carried by `ToDictLookup` |
| FreeSurferStats.ToDictLookup | read_freesurfer_data.py:53 | `to_dict()` has exactly the ten column names as keys; each column is keyed by every `SegId` of the table and holds that row's cell of the column |
| FreeSurferStats.ReportPath | read_freesurfer_data.py:52 | the report path ends in `aseg.stats`; for plain names it is `data_dir/subject/stats/aseg.stats` |
| FreeSurferStats.GetSubjectStats | read_freesurfer_data.py:19-25 | a missing report fails with `FileNotFound`; otherwise the report is read iff it parses, and the table is the parsed one |
| FreeSurferStats.SubjectStats | read_freesurfer_data.py:52-53 | one subject's entry: a missing report fails with `FileNotFound`; otherwise it succeeds iff the report at `ReportPath` parses, and holds `to_dict()` of the parsed table (see also `GetSubjectStats`, `ToDictLookup`, `AggregateSpec`) |
| FreeSurferStats.ChooseSubjects | read_freesurfer_data.py:42-48 | a non-empty list is used as given; otherwise the result is a prefix of the sorted listing: all of it when `num_subjects` is 0, else `[:num_subjects]` of it |
| FreeSurferStats.ChosenAreFirstInOrder | read_freesurfer_data.py:45-48 | without a list, the chosen subjects are the first ones of any ascending arrangement of the listing |
| FreeSurferStats.Collect | read_freesurfer_data.py:50-53 | the per-subject results in order, or the first failure; its contract is carried by `CollectSpec` |
| FreeSurferStats.CollectSpec | read_freesurfer_data.py:50-53 | the results exist iff every subject loads, and then pair each subject, in order, with its statistics; otherwise the error is that of the first subject that fails |
| FreeSurferStats.DictOf | read_freesurfer_data.py:54 | the dictionary's keys are exactly the entries' first components |
| FreeSurferStats.DictOfLast | read_freesurfer_data.py:54 | a key keeps the value of its last entry |
| FreeSurferStats.Aggregate | read_freesurfer_data.py:50-56 | the value of the loop and the dict comprehension; its contract is carried by `AggregateSpec` |
| FreeSurferStats.AggregateSpec | read_freesurfer_data.py:50-56 | the cohort map exists iff every chosen subject's report is read; its keys are exactly the chosen subjects, each holding its own statistics |
| FreeSurferStats.CollectStopsAtFailure | read_freesurfer_data.py:51-53 | once a subject fails, later subjects do not change the outcome |
| FreeSurferStats.ReadAll | read_freesurfer_data.py:50-56 | the loop's result is `Aggregate` of the subjects: the map of every subject's statistics, or the first failure |
| FreeSurferStats.GetFreeSurferStats | read_freesurfer_data.py:42-56 | the whole function is `Aggregate` over `ChooseSubjects`, each subject read from its `stats/aseg.stats` and `to_dict()`-ed |
| Volumes.CountZeros | read_freesurfer_data.py:98 | `empty = len(np.where(data == 0)[0])`, here and at line 71: never more than the voxel count; `NonZeroCount` ties it to the nonzero positions |
| Volumes.MaskVoxels | read_freesurfer_data.py:98-100 | `mask = total - empty`, here and at lines 71-73; its contract is carried by `MaskVoxelsSpec` |
| Volumes.NonZeroCount | read_freesurfer_data.py:98-100 | voxels minus zero voxels is exactly the number of nonzero voxels |
| Volumes.MaskVoxelsSpec | read_freesurfer_data.py:98-100 | `mask = total - empty` counts the nonzero voxels and lies between 0 and `nx·ny·nz` |
| Volumes.BrainVolumeFSmask | read_freesurfer_data.py:98-103 | `mask * vox_dims`; its contract is carried by `BrainVolumeCountsMask`, `AllZeroVolume` and `NoZeroVolume` |
| Volumes.BrainVolumeCountsMask | read_freesurfer_data.py:98-103 | the FreeSurfer-mask brain volume is (nonzero voxels) × `vox_dims`, between 0 and the whole field of view for a non-negative voxel size |
| Volumes.AllZeroVolume | read_freesurfer_data.py:98-101 | an all-zero volume has brain volume 0 for any voxel size |
| Volumes.NoZeroVolume | read_freesurfer_data.py:98-101 | a volume with no zero voxel has brain volume `nx·ny·nz × vox_dims` |
| Volumes.BrainVolumeT1 | read_freesurfer_data.py:71-77 | `mask` times the product of the three zooms; its contract is carried by `BrainVolumeT1CountsMask` |
| Volumes.BrainVolumeT1CountsMask | read_freesurfer_data.py:71-77 | the T1 brain volume is (nonzero voxels) × the product of the three voxel sizes |
| OneHot.InsertLabel | read_freesurfer_data.py:109 | adding one value to an ascending distinct sequence keeps it ascending, with that value added |
| OneHot.Unique | read_freesurfer_data.py:109 | `np.unique`: strictly ascending, and holds exactly the values of the volume, 0 included when present |
| OneHot.AscendingUnique | read_freesurfer_data.py:109 | two strictly ascending sequences with the same values are equal, so the labels are the ascending enumeration of the volume's values |
| OneHot.UniqueCount | read_freesurfer_data.py:109-111 | the number of labels, and so of masks, is the number of distinct values |
| OneHot.OneLabelPerValue | read_freesurfer_data.py:109 | every value of the volume sits at exactly one label position |
| OneHot.IntToOneHot | read_freesurfer_data.py:106-114 | the labels are `np.unique`; the mask stack is new, of shape `(len(labels),) + matrix.shape`, and `onehot[k,x,y,z]` holds iff `matrix[x,y,z] == labels[k]` |
| OneHot.MasksPartition | read_freesurfer_data.py:109-113 | every voxel is set in exactly one mask: the masks are disjoint and cover the volume |

## Left out

- NIfTI loading is not modelled: `nib.load`, `get_fdata`, `squeeze` and `header.get_zooms`. The volume and the voxel sizes are inputs. The `T1` computation assumes a 3-D image; for an image with more axes, the code's `shape[0]*shape[1]*shape[2]` would not be its voxel count.
- Filesystem access is not modelled: `os.listdir`, `os.path.isfile` and `open`. Existence is a set of paths, reports are a map from path to lines, and the listing is an input sequence. `isfile` on a directory is not distinguished.
- `subjects.sort()` (read_freesurfer_data.py:46) sorts the listing in place; the model computes the sorted sequence as a value (`Text.SortStrings`), since the list is not shared with anything else.
- `read_DTI_data.py` is not part of this model. It only loads images and multiplies three voxel sizes.
- `get_freesurfer_masks` (read_freesurfer_data.py:116-133) is not modelled separately. It is loading followed by `int_to_onehot`.
- pandas is not modelled beyond what the code relies on. The frame is a map from `SegId` token to a row, and `to_dict()` is the column-to-(key-to-cell) map; dtypes and index objects are left out.
- Floating point is not modelled: voxel values are integers and voxel sizes are exact reals. The `float32` and `bool` dtypes of the mask stack become `bool`.
- The file-name constants (files_names.py:1-17) are plain constants with no behaviour. `FSLsegLnl` keeps the source's `.niinge` extension, which is evidently a typo for `.nii.gz`. No modelled operation uses it.
- The code has some evident defects that the model does not reproduce. `np` and `nib` are not imported by read_freesurfer_data.py, and `os` and `files_names` are not imported by check_files.py. Line 23 of read_freesurfer_data.py uses the undefined name `df_stats`.
- A check of voxel geometry against the volume's space is not modelled. The code carries no space tags, so the voxel size is taken as given.
- FreeSurferStats.ReportPath: its exact-path clause is stated only for plain names: a non-empty `data_dir` without a trailing `/`, and a subject without `/` at either end. Other cases follow `os.path.join` as modelled by `Paths.Join`.
