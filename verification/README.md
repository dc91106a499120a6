# merge-log in Dafny

A model of the merging core of `merge-log`. This tool takes the logs of several runs of an experiment and merges them. For every key it writes one CSV row holding the mean and the standard deviation of the values the files logged under that key. Any failed check aborts the run. The model covers:

- the four mergers of `merge_logs/formats.py`;
- the older copies of formats 0 to 2 in `merge_logs/__main__.py`;
- that file's format-id check and the rows it writes.

Files, one module each:

- `types.dfy` (`Types`): the data model.
  - Loaded files are maps from key to samples (formats 0 to 2). In format 3 they are dense step sequences of loosely typed `Value` records, so step `i` is position `i`.
  - `Stats` maps each canonical key to `[mean, std, mean, std, ...]`.
  - A merge returns `Merged(stats, header)` or one `MergeError`. Most errors stand for a Python `assert`, `IndexError` or `ValueError`. `PathNotFound` is the `KeyError` or `TypeError` of a failed lookup. `NotNumeric` is numpy's `TypeError` on a non-number. `Unimplemented` is the `TypeError` of `sorted(None)`. `WrongShape` has no Python counterpart: the model rejects logs of the wrong shape for the chosen format. Python also fails on scalar logs given to format 2, but not on sample-row logs given to formats 0 and 1 (see "## Left out").
- `seqs.dfy` (`Seqs`): two helpers.
  - `Flatten` models repeated `list.extend`.
  - `FirstIndexWhere` models a loop over `enumerate` that stops at the first failed `assert`.
- `statistics.dfy` (`Statistics`): the statistics.
  - The population mean is exact over `real`.
  - The standard deviation is a parameter `std`, because it needs a square root. `IsPopulationStd` says what a correct `std` satisfies.
  - numpy gives NaN for an empty list. This is the `NaN` case of `Float`.
- `keys.dfy` (`Keys`): the key handling.
  - `SortedKeys` is `sorted(d.keys())`.
  - `ArgMinIndex` and `Nearest` model `min(keys, key=lambda k: abs(key - k))`. The scan is left to right, so the first minimum wins.
- `nested.dfy` (`Nested`): feature paths.
  - `Split` is `str.split(",")`.
  - A feature's display name is its last segment.
  - `GetPath` and `GetNested` model `_get_nested` and `get_nested`.
- `formats.dfy` (`Formats`): `merge_format0` to `merge_format3`.
  - Format 0 pools each shared key over the files in file order.
  - Formats 1 and 2 pool, from every file, the entry under that file's key nearest to each of the first file's keys. In format 2 each column is pooled separately.
  - Format 3 reads every feature path at every step of every file.
- `command.dfy` (`Command`): the older `merge_formats`.
  - Its merger copies return the statistics without a header.
  - It rejects format ids outside 0 to 3.
  - It writes one row per key in ascending key order: the key, then that key's statistics.

Each merger has a partner proved against it. Format 1 agrees with format 0 when the key sets are equal. Column `i` of format 2 is format 1 run on column `i` of the data. Each format 3 cell summarises the numbers that the last path with its display name resolves to, and format 3 fails as non-numeric exactly when one of those kept paths is not a number somewhere. The output rows read back into the statistics they were written from. The nearest-key choice is characterised by minimality and by the tie rule. The format-id check (`Command.SelectFormat`) and the dispatch (`Command.Dispatch`) have no separate partner: their contracts state the exact range of accepted ids and which merger each id runs.

Format 3 keeps each feature's samples under the feature's display name (`merge_logs/formats.py:150`). So when two paths end in the same segment, both columns hold the later path's statistics. The model keeps this behaviour, and `Formats.SharedNameSameColumns` proves it.

Three behaviours of the code are worth stating plainly:

- Format 3 does not reject an empty feature list (`merge_logs/formats.py:130-161`). It returns rows of length zero and an empty header.
- Feature paths are split on commas only (`merge_logs/formats.py:169`).
- In format 2, every sample under every key of every file must have the first sample's width (`merge_logs/formats.py:95-100`). This includes samples that no canonical key selects.

## Model

| member | source | states |
|---|---|---|
| Seqs.FirstIndexWhere | merge_logs/formats.py:27-30 | The index where a checking loop over `enumerate` first fails: none exactly when every element passes; otherwise the element at that index fails and every earlier one passes |
| Seqs.FlattenAppend | merge_logs/formats.py:36-37 | Extending a list with the lists of two groups of files in turn equals extending with the first group, then the second |
| Formats.FirstKeyMismatch | merge_logs/formats.py:26-30 | The key check of format 0 names the first file whose key set differs from the first file's. It finds none exactly when all key sets are equal |
| Formats.MergeFormat0 | merge_logs/formats.py:17-44 | Fails with a feature list, and with no files. Otherwise succeeds exactly when every file has the first file's key set, reporting the first file that does not. On success: no header, exactly the first file's keys, and each key summarised over its lists in file order |
| Keys.SortedKeys | merge_logs/formats.py:56 | `sorted(keys)` holds exactly the set's elements, one entry per element |
| Keys.SortedKeysAscending | merge_logs/formats.py:56 | The sorted key list is strictly ascending |
| Keys.AscendingListingUnique | merge_logs/formats.py:56 | Two strictly ascending listings of the same elements are equal, so the sorted key list is determined by the key set |
| Keys.ArgMinIndex | merge_logs/formats.py:67 | The position `min` with a distance key selects is at minimal distance, and every earlier position is strictly farther (first minimum wins) |
| Keys.ArgMinIndexUnique | merge_logs/formats.py:67 | Any position that is at minimal distance with every earlier position strictly farther is the selected one |
| Keys.Nearest | merge_logs/formats.py:67 | The chosen key is one of the keys and is at minimal distance. A key equal to the target is chosen itself |
| Keys.NearestTieGoesToSmaller | merge_logs/formats.py:56-67 | Over an ascending key list, every key as near as the chosen one is at least as large: ties go to the smaller key |
| Formats.NearestKey | merge_logs/formats.py:66-68 | The key `min` picks for `k` is one of the file's keys. Its minimality and tie rule are stated by `Formats.NearestKeyChoice` |
| Formats.NearestKeyChoice | merge_logs/formats.py:66-68 | In one file, the key matched to `k` minimises the distance over the file's keys. It is the smaller of two equally near keys, and it is `k` itself when the file has `k` |
| Formats.NearestEntries | merge_logs/formats.py:66-68 | For every file in order, the list under that file's key nearest to `k` |
| Formats.FirstCountMismatch | merge_logs/formats.py:56-60 | The key check of formats 1 and 2 names the first file whose key count differs from the first file's. It finds none exactly when all key counts are equal |
| Formats.MergeFormat1 | merge_logs/formats.py:47-75 | Fails with a feature list, and with no files. Otherwise succeeds exactly when all key counts agree, reporting the first file whose count differs. On success: no header, the first file's keys, nearest-key pooling |
| Formats.NearestIsExactOnSharedKey | merge_logs/formats.py:66-68 | When every file holds key `k`, nearest-key matching picks `k` in every file |
| Formats.Stats1AgreesWithStats0 | merge_logs/formats.py:62-73 | On files with one shared key set, the format 1 statistics equal the format 0 statistics |
| Formats.Format1AgreesWithFormat0 | merge_logs/formats.py:47-75 | For any feature argument and any files sharing one key set, `merge_format1` returns what `merge_format0` returns, failures included |
| Formats.FirstKey | merge_logs/formats.py:87-94 | `all_keys[0][0]`: a key of the first file no larger than any other of its keys |
| Formats.FirstWidth | merge_logs/formats.py:94 | `n_stats` is the width of the first sample stored under the first file's smallest key |
| Formats.Columns | merge_logs/formats.py:102-110 | Appending each sample's `i`-th value to list `i` gives, for every column, exactly that column of the samples in order |
| Formats.Row2 | merge_logs/formats.py:112-119 | A format 2 row has two entries per column. Pair `i` is the mean and deviation of column `i` of the pooled nearest-key samples |
| Formats.MergeChecked2 | merge_logs/formats.py:93-121 | Without a first sample the merge fails with no-samples. With one, it fails on a width mismatch exactly when some sample of some file has another width. There are no other failures. On success: no header, the first file's keys, per-column rows |
| Formats.MergeFormat2 | merge_logs/formats.py:78-121 | Fails with a feature list, and with no files. Fails on unequal key counts, naming the first file whose count differs. Otherwise it is the checked column merge |
| Formats.FlattenColumn | merge_logs/formats.py:106-110 | Pooling samples and then taking column `i` equals taking column `i` of every file's samples and then pooling |
| Formats.PooledColumn | merge_logs/formats.py:102-110 | Column `i` of the format 2 pool of `k` is the format 1 pool of `k` over column `i` of every file |
| Formats.Format2ColumnIsFormat1 | merge_logs/formats.py:78-121 | When format 2 succeeds, pair `i` of a key's row equals the format 1 row of that key on column `i` of every file. Format 1 also succeeds there |
| Formats.Format1Row | merge_logs/formats.py:62-75 | With equal key counts, format 1 succeeds, and each first-file key maps to the summary of its nearest-key pool |
| Formats.Names | merge_logs/formats.py:130-132 | One display name per feature, in feature order: the path's last comma-separated segment |
| Formats.LastWithName | merge_logs/formats.py:141-150 | The feature whose table `all_stats[name]` ends up holding: it has that display name, and no later feature does |
| Formats.StepSamples | merge_logs/formats.py:145-148 | One value per file in file order. It is defined exactly when the path resolves at that step in every file |
| Formats.FeatureTable | merge_logs/formats.py:143-149 | A feature's samples for steps `0 .. n-1`, defined exactly when the path resolves at every step in every file |
| Formats.Collect | merge_logs/formats.py:141-150 | `all_stats` is defined exactly when every path resolves everywhere. Its keys are exactly the display names, and each name holds the table of the last feature with that name |
| Formats.Numbers | merge_logs/formats.py:158-159 | A sample list can be averaged exactly when every value is a number. The numbers then come in list order |
| Formats.Stats3 | merge_logs/formats.py:153-159 | Format 3 has keys `0 .. n-1`. Each row has two entries per display name: the mean and deviation of that name's samples at that step |
| Formats.MergeSteps3 | merge_logs/formats.py:140-161 | Fails with path-not-found exactly when some path fails to resolve somewhere. The only other failure is a non-numeric value. On success: the header is the display names, the keys are the steps, and each row has two entries per feature |
| Formats.KeptFeature | merge_logs/formats.py:141-150 | The feature whose table `all_stats` keeps under feature `j`'s display name is one of the features and carries that name |
| Formats.KeptCell | merge_logs/formats.py:154-158 | The samples averaged for feature `j` at step `s` are all numbers exactly when the kept feature resolves to a number in every file at that step |
| Formats.MergeSteps3Numeric | merge_logs/formats.py:140-161 | Once every path resolves, format 3 succeeds exactly when every kept feature is a number at every step of every file, and otherwise fails as non-numeric. A non-number under a feature whose name a later feature reuses does not make it fail |
| Formats.MergeFormat3 | merge_logs/formats.py:124-161 | Fails with no files. Fails on unequal step counts exactly when a file's step count differs from the first file's. Otherwise it is the step merge |
| Formats.MergeFormat3Cell | merge_logs/formats.py:141-159 | On success, pair `j` of step `s` is the mean and deviation of the numbers that the last path sharing feature `j`'s display name resolves to at step `s`, in file order |
| Formats.AllNumbersSucceeds | merge_logs/formats.py:134-161 | If the step counts agree and every path resolves to a number at every step of every file, format 3 succeeds. This is the special case of `Formats.MergeSteps3Numeric` where every feature, kept or not, is numeric |
| Formats.OwnDataWhenUnshared | merge_logs/formats.py:142-150 | A feature whose display name no other feature has keeps its own table |
| Formats.SharedNameSameColumns | merge_logs/formats.py:150-157 | Two features with the same display name get identical column pairs in every row |
| Nested.Split | merge_logs/formats.py:169 | `split(",")` gives at least one piece, and no piece contains a comma |
| Nested.JoinSplit | merge_logs/formats.py:169 | Joining the pieces of a split with commas gives back the path |
| Nested.SplitJoin | merge_logs/formats.py:169 | Splitting a comma-joined list of comma-free keys gives back the keys |
| Nested.LastSegment | merge_logs/formats.py:131 | `split(",")[-1]`: the display name has no comma, and a path without commas is its own display name |
| Nested.LastSegmentIsSuffix | merge_logs/formats.py:131 | A display name has no comma. It is the whole path, or the part after the path's last comma |
| Nested.GetPath | merge_logs/formats.py:172-176 | `_get_nested`: an empty path returns the value itself. A non-empty walk succeeds only from a record holding the first key |
| Nested.GetPathAppend | merge_logs/formats.py:172-176 | Walking `p + q` is walking `p`, then walking `q` from where `p` ends, failing if either fails |
| Nested.GetNested | merge_logs/formats.py:164-169 | A split path has at least one key, so any value that is not a record fails the lookup |
| Nested.GetNestedSingleKey | merge_logs/formats.py:164-176 | A path without commas is one key looked up in a record: its value if present, otherwise a failure |
| Statistics.MeanBounds | merge_logs/formats.py:42 | The mean of a non-empty list is finite and lies between any lower and upper bound of its values |
| Statistics.PooledMean | merge_logs/formats.py:33-42 | The mean of two pooled lists is the mean of each weighted by its length |
| Statistics.ConstantSummary | merge_logs/formats.py:42 | For a list of one repeated value and a correct population `std`, the variance is zero, the mean is that value, and the deviation is a non-negative square root of zero |
| Statistics.PairsRow | merge_logs/formats.py:116-119 | Two entries per column. Entries `2i` and `2i+1` are the mean and deviation of column `i` |
| Command.MergeFormat0 | merge_logs/__main__.py:19-46 | The older format 0 has the same checks and first failing file. On success it returns exactly the shared keys, each summarised over its lists in file order |
| Command.MergeFormat1 | merge_logs/__main__.py:49-77 | The older format 1 rejects unequal key counts, naming the first. On success it returns the first file's keys, each summarised over its nearest-key pool |
| Command.MergeFormat2 | merge_logs/__main__.py:80-123 | The older format 2 rejects a feature list, no files and unequal key counts. With equal key counts it is the checked column merge without a header: it fails without a first sample, and otherwise succeeds exactly when every sample has the first sample's width |
| Command.SelectFormat | merge_logs/__main__.py:150-159 | Succeeds exactly for ids 0 to 3, including rejecting negative ids; any other id is rejected as unsupported |
| Command.RowOf | merge_logs/__main__.py:168 | A row is the key followed by the key's statistics in order |
| Command.Rows | merge_logs/__main__.py:167-168 | One row per key in strictly ascending key order. Each row is some key's row, and every key has its row |
| Command.ReadRows | merge_logs/__main__.py:167-168 | Reading rows back succeeds exactly when every row is a key followed by statistics. Every row's key is then present, and the last row's statistics are kept |
| Command.ReadBack | merge_logs/__main__.py:167-168 | Any rows that are each a key's row, with every key's row present, read back into exactly those statistics |
| Command.ReadRowsOfRows | merge_logs/__main__.py:164-168 | The written rows read back into exactly the statistics they were written from |
| Command.Dispatch | merge_logs/__main__.py:126-162 | A valid id runs its merger without a nested feature. The format 3 placeholder fails, and logs of the wrong shape are rejected |
| Command.MergeFormats | merge_logs/__main__.py:135-168 | Rejects an id outside 0 to 3. Format 3 fails. It succeeds exactly when the selected merger does, and its rows are in ascending key order and read back into that merger's statistics |

## Left out

- The command line, the overwrite prompt and `main` (`merge_logs/__main__.py:171-237`): these are user interaction. `merge_logs/__init__.py`'s `merge_all` is an empty stub.
- The loaders (`merge_logs/loaders.py`) and the `yaml.safe_load` loop (`merge_logs/__main__.py:145-148`): these are file input through an external parser. The model starts from already-loaded data.
- `csv.writer` quoting and the opening of the output file (`merge_logs/__main__.py:165-166`): the model stops at the list of rows. Cells are typed, not text.
- numpy's `std`: every merger takes it as a parameter, because Dafny has no square root. `IsPopulationStd` states what a correct one must satisfy.
- Floating point: values are exact `real`s. The only float behaviour modelled is NaN for the mean or deviation of an empty list.
- Python's dynamic typing. Records are a tagged union, and a path lookup on anything but a record fails. The older entry point's logs have one of two shapes, and a format applied to the other shape fails with `WrongShape`. This diverges from Python for formats 0 and 1 given logs whose lists hold samples of one width (`merge_logs/__main__.py:39-44`, `:70-75`). There `extend` pools the samples into a two-dimensional list, and `np.mean` and `np.std` return the mean and deviation of all its values, so Python succeeds where the model fails. Scalar logs given to format 2 fail in Python too, on `len` of a number or an `IndexError`. Format 3 averages only numbers, and any other kept value is reported as `NotNumeric`. numpy would also average equal-length nested lists of numbers, and it fails on text and records.
- Format 3 step keys: a loaded format 3 file is a mapping from step number to record (`merge_logs/types.py:12`), read for steps `0 .. len(data[0]) - 1` (`merge_logs/formats.py:135`, `:146`). The model stores each file as a dense list of steps, so a mapping whose keys are not exactly `0 .. n - 1` (for example `{0: r, 2: r}`) is outside the model. Python raises a `KeyError` at `merge_logs/formats.py:146` on such a file.
- YAML booleans and nulls: `Value` has no boolean or null case, so a loaded `true`, `false` or `null` cannot be represented. numpy would average booleans as 0 and 1, and a `null` lookup result would fail. Neither behaviour is modelled.
- The keys of the older entry point: it dispatches and writes rows for integer keys only. Python also sorts string keys for format 0.
- The error messages: the model reports only which check failed and, for key checks, the file index.
- Format 3's `features=None`: the feature list is a sequence, so iterating over `None` is not representable.
- The older `merge_format3` (`merge_logs/__main__.py:126-132`): it returns `None`, so writing its rows fails. The model reports this as `Unimplemented`.
- Command.MergeFormat2: its own clauses give only the failure conditions. It states the keys, row lengths and per-column values through `Formats.MergeChecked2`, which it equals with equal key counts.
- Command.ReadRows: it states the stored value only for the last row. The full round trip for ascending rows is `Command.ReadRowsOfRows`.
- Formats.NearestKey: its contract says only that the chosen key is one of the file's keys. The minimal distance and the tie rule are stated by `Formats.NearestKeyChoice`, which keeps them out of every caller's proof context.
- Nested.GetPath: its contract states the empty path and the first step of a walk. Longer walks are stated by `Nested.GetPathAppend`.
