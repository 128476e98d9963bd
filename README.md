# rename_tool, modelled in Dafny

`rename_tool` is a command-line program that renames every regular file in a
directory. There are two modes:

- **Sequential mode** (the default). The files are sorted by age with a
  selection sort. The age of a file is the older of its creation and
  modification times, in whole seconds. The `i`-th file becomes
  `{name}{i}{extension}`.
- **Date mode** (`--datetime`). The files keep the order in which they were
  listed. Each becomes `{name} {YYYY-MM-DD HH:MM:SS}{extension}`, from the
  same timestamp.

Both modes take the extension from the first `.` of the old name.

The model has four modules, following the program's single source file:

- `Inventory` (`inventory.dfy`): the collection loop of `main`. It skips
  anything that is not a regular file, keeps the older of the two
  timestamps, and pushes onto two parallel vectors. The method `Collect` is
  proved against the function `Collected`.
- `Naming` (`naming.dfy`): `split_once('.')` and the `(name, extension)`
  pair built from it, the decimal index, the two `format!` targets and the
  `dir/file` join.
- `Sorting` (`selection_sort.dfy`): `selection_sort` on two arrays, in
  place. The method `SelectionSort` is proved to compute `SelectionSorted`,
  which is the same algorithm as a function on sequences. The lemmas about
  that function show:
  - the times end up sorted;
  - the (name, time) pairs are a permutation of the originals;
  - input that is already sorted is left alone;
  - the sort is not stable.
- `Renaming` (`renaming.dfy`): the two rename loops and `main` as
  `RenameDirectory`.
  - Instead of calling `fs::rename`, the model returns the list of
    (source, destination) pairs in the order the program renames them.
  - When the date conversion fails, `unwrap` would abort the program. The
    model reports this as `aborted`, together with the renames already done.

The sort is not stable, and the model follows the code here. Ties are broken
by the leftmost minimum of the remaining positions, as the code does. This
does not preserve the listing order of equal times once an earlier swap has
moved one of them. `Sorting.NotStable` exhibits this.

## Model

| member | source | states |
|---|---|---|
| Inventory.OlderTime | src/main.rs:45 | the key is no later than either timestamp and is one of them |
| Inventory.ToRecord | src/main.rs:45-48 | the record pushed for a regular file carries its own name and the older of its two timestamps |
| Inventory.Collected | src/main.rs:36-49 | the inventory has one record per regular file; every record comes from a regular file of the listing and every regular file has its record |
| Inventory.Collect | src/main.rs:33-49 | the two vectors the loop builds have equal length, the number of regular files, and paired up they are exactly the inventory |
| Inventory.UnzipZip | src/main.rs:47-48 | pairing the two vectors and taking them apart again gives the vectors back |
| Inventory.CollectedNamesDistinct | src/main.rs:36-49 | when the regular files of the listing have distinct names, so have the inventory's records |
| Naming.SplitOnce | src/main.rs:55 | `None` exactly when there is no separator; otherwise before, separator and after rebuild the string, and before holds no separator |
| Naming.SplitName | src/main.rs:55-58 | name and extension rebuild the file name; the name has no dot; the extension is empty or starts with a dot, and it is empty exactly when the file name has no dot |
| Naming.SplitNameUnique | src/main.rs:55-58 | the split is the only way to write a file name as a dot-free name followed by an extension |
| Naming.ExtensionIsEnding | src/main.rs:55-58 | `Extension` (the extension half of the split) is a dot-led ending of the file name, empty exactly when the name has no dot |
| Naming.Decimal | src/main.rs:64 | `{i}` is a non-empty string of decimal digits with no leading zero |
| Naming.DecimalRoundTrip | src/main.rs:64 | reading the digits of `{i}` back gives `i` |
| Naming.DecimalInjective | src/main.rs:64 | different indices have different decimal forms |
| Naming.SequentialTargetParts | src/main.rs:64 | `SequentialTarget`, the `{new_name}{i}{extension}` of the rename, starts with the new name, ends with the extension, and holds one or more decimal digits between them |
| Naming.DatetimeTargetParts | src/main.rs:82 | `DatetimeTarget`, the `{new_name} {newdate}{extension}` of the rename, is the new name, a space, the date text and the extension, each readable back from it |
| Naming.JoinPathParts | src/main.rs:64 | `JoinPath`, the `{dir_path}/{file}` of both paths, is the directory, a slash and the file name, the file name readable back from it |
| Naming.JoinPathInjective | src/main.rs:64 | two paths in the same directory are equal only when their file names are |
| Naming.SequentialTargetInjective | src/main.rs:64 | two sequential targets with the same prefix are equal only for the same index and the same extension |
| Naming.SequentialTargetKeepsExtension | src/main.rs:54-64 | for a prefix without a dot, the new name has the old name's extension |
| Naming.DatetimeTargetKeepsExtension | src/main.rs:68-82 | for a prefix and a date text without dots, the new name has the old name's extension |
| Sorting.Swap | src/main.rs:96-97 | the two positions trade places and all others are unchanged |
| Sorting.SwapPermutes | src/main.rs:96-97 | a swap neither loses nor duplicates an element |
| Sorting.LeftmostMin | src/main.rs:89-94 | the selected index holds the least time from `i` on, and every earlier position from `i` holds a strictly later time |
| Sorting.LeftmostMinUnique | src/main.rs:89-94 | only one index has the two properties of the leftmost minimum |
| Sorting.LeftmostMinIndex | src/main.rs:89-94 | the inner scan with strict `<` ends on the leftmost minimum from `i` on |
| Sorting.SortFrom | src/main.rs:88-98 | the outer rounds from `i` on as a function on both vectors: they keep both lengths and leave the first `i` positions untouched; `SortFromSorted` and `SortFromKeepsPairs` carry the rest of its contract |
| Sorting.RoundStep | src/main.rs:88-98 | one round of the outer loop is the swap with the leftmost minimum followed by the remaining rounds |
| Sorting.RoundExtendsPrefix | src/main.rs:88-98 | each round makes the sorted prefix one longer; the prefix holds no time later than the times after it |
| Sorting.SortFromSorted | src/main.rs:88-98 | the rounds from a sorted prefix leave the times sorted |
| Sorting.SortFromKeepsPairs | src/main.rs:88-98 | the rounds preserve the multiset of (name, time) pairs, of names and of times |
| Sorting.SelectionSorted | src/main.rs:87-98 | `selection_sort` as a function on both vectors, all rounds from 0: both keep their length; `SelectionSortedIsSortedPermutation` proves the times sorted and the pairs a permutation |
| Sorting.SelectionSortedIsSortedPermutation | src/main.rs:87-98 | the sorted times are non-decreasing, and the sorted (name, time) pairs, names and times are permutations of the originals |
| Sorting.SortFromFixesSorted | src/main.rs:88-98 | rounds over already sorted times swap nothing |
| Sorting.SelectionSortedIdempotent | src/main.rs:87-98 | input with sorted times is returned unchanged, so sorting twice is sorting once |
| Inventory.DistinctAtMostOnce | src/main.rs:87-98 | helper for `Renaming.SourcesDistinct`, a general fact about sequences: one without repetitions holds every value at most once |
| Inventory.DistinctPermutation | src/main.rs:87-98 | helper for `Renaming.SourcesDistinct`, a general fact about sequences: a rearrangement of one without repetitions has none either, so the sort keeps distinct names distinct |
| Sorting.NotStable | src/main.rs:87-98 | with times `[t, t, s]` and `s < t`, the names `[a, b, c]` come out as `[c, b, a]`: the two files of equal time swap order |
| Sorting.SwapInPlace | src/main.rs:96-97 | the array afterwards is the swap of its old contents |
| Sorting.SelectionSort | src/main.rs:87-98 | in place on both arrays: the times end non-decreasing, the pairs are a permutation of the old pairs, and both arrays equal `SelectionSorted` of the old contents |
| Renaming.AsI64 | src/main.rs:74 | `as i64` lands in the i64 range, agrees with the value modulo 2^64, and is the identity below 2^63 |
| Renaming.SequentialDestinationsDistinct | src/main.rs:54-65 | no two renames of the sequential mode share a destination |
| Renaming.SequentialRenames | src/main.rs:54-65 | the file at position `i` goes from `dir/{name}{extension}` to `dir/{new_name}{i}{extension}`, one rename per file, with distinct destinations |
| Renaming.DatetimeOutcomeUnique | src/main.rs:68-83 | the renames and the abort of the date mode are determined by the inputs |
| Renaming.DatetimeRenames | src/main.rs:68-83 | files are renamed in order to `dir/{new_name} {date}{extension}`; the first time with no date stops the run, and every file before it was renamed |
| Renaming.RenameDirectory | src/main.rs:28-84 | the date mode gives the date-mode outcome over the inventory in listing order; the sequential mode gives the sequential renames of the sorted inventory, never aborts, and has distinct destinations |
| Renaming.SequentialNumbersFollowAge | src/main.rs:51-65 | the file numbered `i` is the `i`-th of the inventory's (name, time) pairs sorted by time, and the sorted pairs are the inventory's pairs rearranged |
| Renaming.SortedNamesCoverNames | src/main.rs:52 | sorting loses no name |
| Renaming.CollectedNamesCoverFiles | src/main.rs:36-49 | every regular file's name is in the collected names |
| Renaming.RenamedNames | src/main.rs:51-84 | the names renamed position by position: exactly the collected names in listing order in the date mode, exactly the names of `SelectionSorted` in the sequential mode; either way a rearrangement of the collected names, all of them renamed unless the run aborts |
| Renaming.RegularFilesAreSources | src/main.rs:36-84 | when the sources are the paths of a rearrangement of the collected names, every regular file of the listing is a source |
| Renaming.OnlyRegularFilesRenamed | src/main.rs:36-84 | every rename, also those done before an abort, has a regular file of the listing as its source: directories and other entries are never renamed |
| Renaming.EveryRegularFileRenamed | src/main.rs:36-84 | without an abort there are as many renames as regular files, every regular file is the source of a rename, and every source is a regular file |
| Renaming.SourcesDistinct | src/main.rs:36-84 | when the regular files have distinct names, no path is the source of two renames; a file can still be moved twice through a destination that is a later source, as `DestinationCanBeLaterSource` shows |
| Renaming.CollectedTwoFiles | src/main.rs:36-49 | a listing of two regular files gives their two records in listing order |
| Renaming.DestinationCanBeLaterSource | src/main.rs:51-65 | when a newer file already has the name the oldest file is given, the first rename targets that file's path and the second rename takes its source from the same path |

## Left out

- Argument parsing with `clap` (lines 6-29): the directory, the new name and the mode are parameters.
- `--verbose` and its `println!` lines (60-62, 78-80): they print and do not affect the renames.
- The directory listing, `file_type` and `metadata` (lines 31, 37-43) are input: a sequence of entries, each with its name, a regular-file flag and both timestamps already in whole seconds. The `unwrap`s on these calls, on `duration_since` and on `into_string` (names that are not valid UTF-8) are not modelled. Strings are sequences of characters.
- `fs::rename` is not performed. The model returns the list of renames and assumes each one succeeds. Whether a rename overwrites an existing destination depends on the platform and is not modelled; `Renaming.DestinationCanBeLaterSource` shows where this matters.
- The date conversion and formatting of `chrono` (lines 74-76) are a parameter from seconds to the formatted text. `None` stands for the conversion failing, where `unwrap` aborts. The `as i64` cast before it is modelled.
- Renaming.DatetimeRenames: distinct destinations are not proved, because the formatter is a parameter and two files of the same second get the same date text.
- Naming.DatetimeTargetKeepsExtension: holds only for a date text without a dot. The format pattern `%Y-%m-%d %H:%M:%S` has none, but the formatter is a parameter, so this is a precondition.
