# Ordered train/validation/test split, modelled in Dafny

This project models the time-ordered dataset split of `src/data/sets.py`. The
split has three parts:

- `subset_x_y` takes the same positional slice `[start:end]` of a feature
  table and of its target series.
- `pop_target` copies a table and pops the target column out of the copy.
- `split_sets_by_time` pops the target and sets `cutoff = int(len(target) / 5)`.
  It then cuts the rows, in their given order, at the Python bounds
  `-cutoff * 2` and `-cutoff` into train, validation and test.

The model is pure: datatypes, functions and lemmas. There are three modules.

- `PySlice` (`slicing.dfy`) gives Python's `s[i:j]` with both bounds given.
  This follows notes (3) and (4) of the "Common Sequence Operations" table of
  the Python Standard Library reference. A negative bound counts from the end,
  and `-0` is `0`. Bounds are clamped to `[0, len]`. The slice is empty when
  the resolved start is not below the resolved end.
- `Frames` (`frames.dfy`) is the table. A `Table` has an ordered sequence of
  distinct column labels and a sequence of rows, with one value per column in
  each row. A `Column` (the target series) is a label plus its values.
  `DataFrame.pop` is `Pop`: it takes the labelled column out and fails with
  `KeyError` when the label is missing. Putting the column back where it was
  gives back the original table (`Rejoin`, `InsertAt`).
- `Sets` (`sets.dfy`) holds `SubsetXY`, `Cutoff`, `PopTarget` and
  `SplitSetsByTime`. `SplitAt` is the three `subset_x_y` calls. It also holds
  the lemmas about the partition.

The edge case is proved as the code behaves. When there are fewer than five
rows, `cutoff` is `0`, so both bounds `-cutoff * 2` and `-cutoff` are `0`,
not "to the end". Train and validation are then empty and test is the whole
table (`SplitSmall`).

The caller's table cannot change, because tables are values. That matches the
`df.copy()` before `pop` at `src/data/sets.py:57` and `:161`.

## Model

| member | source | states |
|---|---|---|
| PySlice.Resolve | src/data/sets.py:27 | a slice bound stands for a position in `[0, len]`: an in-range bound for itself, a negative one for `len + i`, one past the end for `len`, and one before the front for `0` |
| PySlice.Slice | src/data/sets.py:27 | `s[i:j]` has `Width(i, j, len)` elements: the resolved end minus the resolved start, or none |
| PySlice.Width | src/data/sets.py:27 | the slice fits after its resolved start, it is empty exactly when the resolved end is not past the resolved start, and otherwise it has the resolved end minus the resolved start elements |
| PySlice.SliceAt | src/data/sets.py:27 | element `k` of `s[i:j]` is element `Resolve(i) + k` of `s` |
| PySlice.SliceIsRange | src/data/sets.py:27 | between ordered resolved bounds, `s[i:j]` is the plain range `s[a..b]` |
| PySlice.SliceAdjacent | src/data/sets.py:61-63 | `s[i:j] + s[j:k] == s[i:k]` when the resolved bounds are ordered |
| PySlice.SliceWhole | src/data/sets.py:63 | `s[0:len(s)] == s` |
| PySlice.SliceToMinusZero | src/data/sets.py:61-62 | a slice ending at `-0` is empty, whatever its start |
| Frames.SliceRows | src/data/sets.py:27 | `frame[i:j]` keeps the labels and takes rows `[i:j]`, and the result is still a table |
| Frames.IndexOf | src/data/sets.py:162 | the position of a label: it is the matching label when it is in range, and when it is not the label is absent |
| Frames.Pop | src/data/sets.py:162 | `KeyError(name)` exactly when the label is missing. Otherwise it returns the column with that label and a table without the label, with the same number of rows. Putting the column back at its old position gives back the labels and the rows |
| Frames.InsertRemoved | src/data/sets.py:162 | inserting the removed element back at its position restores the sequence |
| Frames.NameRemoved | src/data/sets.py:162 | removing a label from distinct labels leaves distinct labels, without the removed one |
| Frames.RejoinConcat | src/data/sets.py:61-63 | putting the target back into parts one by one is the same as doing it on their concatenation |
| Sets.SubsetXY | src/data/sets.py:27 | both outputs are the same slice `[start:end]` of the features' rows and of the target's values. Labels are kept. Equal-length inputs give equal-length outputs |
| Sets.SubsetAligned | src/data/sets.py:27 | row `k` of the feature output and value `k` of the target output come from the same input row, `Resolve(start) + k` |
| Sets.Cutoff | src/data/sets.py:59 | `int(n / 5)` is the `c` with `5c <= n < 5c + 5` |
| Sets.PopTarget | src/data/sets.py:161-162 | `KeyError(targetCol)` exactly when the label is missing. Otherwise the target is the column labelled `targetCol`, and the rest has that label removed and every row with that column's entry removed |
| Sets.PoppedParts | src/data/sets.py:161-162 | from the pop's round trip: the target is column `p`, and the rest is each row without its entry `p` |
| Sets.PopTargetKeepsColumns | src/data/sets.py:161-162 | every other column survives the pop with its label and values, in its old order |
| Sets.SplitSetsByTime | src/data/sets.py:57-58 | the split fails, with `KeyError(targetCol)`, exactly when the target label is missing |
| Sets.SplitAt | src/data/sets.py:59-63 | the three `subset_x_y` calls at the cutoff bounds keep the feature labels and the target label, their target parts read in order are the whole target, and, when the table has as many rows as the target, their feature parts read in order are all the rows |
| Sets.SplitOfPopped | src/data/sets.py:57-65 | a successful split is the three `subset_x_y` calls on the popped table and target, which have as many rows as the input |
| Sets.CutPoints | src/data/sets.py:59-63 | `-c * 2` and `-c` resolve to `n - 2c` and `n - c` when `c > 0`, which holds exactly when `n >= 5`. They resolve to `0` and `0` when `c == 0`. The bounds are always in order |
| Sets.TimeCutsConcat | src/data/sets.py:61-63 | the three slices at `0`, `-c * 2`, `-c` and `len` put back together give the whole sequence, for every length |
| Sets.SplitAtPartition | src/data/sets.py:61-65 | train, validation and test put back together give the features and the target. Every partition keeps the labels and is row-aligned |
| Sets.SplitPartition | src/data/sets.py:57-65 | the split with the target popped: no row is dropped, repeated or reordered in the features or the target, and each partition is row-aligned |
| Sets.SplitReassembles | src/data/sets.py:57-65 | putting the target label back into the partitions' labels gives the caller's labels, and putting each partition's target back into its rows and joining the partitions in order gives the caller's rows: together, the caller's table |
| Sets.SplitRanges | src/data/sets.py:59-63 | for `n >= 5`: train is rows `[0, n-2c)`, validation is rows `[n-2c, n-c)`, test is rows `[n-c, n)`, and `n - 2c >= 3c` |
| Sets.SplitSmall | src/data/sets.py:59-63 | for `n < 5`: `c == 0`, train and validation are empty, and test is the whole table and target |
| Sets.SplitSizes | src/data/sets.py:59-63 | the sizes add up to `n`. Validation and test have `c` rows each, and train has `n - 2c` (when `n >= 5`). For `n < 5` the sizes are `0, 0, n`. For a multiple of five they are `3n/5, n/5, n/5` |
| Sets.SplitIgnoresTestRatio | src/data/sets.py:29-65 | the result does not depend on `test_ratio` |

## Left out

- `save_sets` and `load_sets` (`src/data/sets.py:67-139`) are file I/O through
  NumPy's `np.save`, `np.load` and `os.path.isfile`, so they are not modelled.
  Their round trip relies on `np.save` appending `.npy`, which is library
  behaviour outside this code.
- `split_sets_random` (`src/data/sets.py:172-248`) is not modelled. It calls
  scikit-learn's randomised, stratified `train_test_split` with a fixed seed,
  and its `val_ratio` is floating point. As written it also uses
  `features_remaining` and `target_remaining` at line 225, but assigns them
  only in the stratify branch (lines 220-221). `X_remaining` and
  `y_remaining` are unbound at line 248 when `reduce_dataset` is false.
- The `to_numpy` conversion of `pop_target` (`src/data/sets.py:164-166`) only
  changes the representation, so it is not modelled.
- Sets.Cutoff: `int(len(target) / 5)` is a floating-point division followed by
  truncation. It is modelled as natural-number division, which gives the same
  result for every row count below 2^53. Above that, rounding of the quotient
  can differ: for `5 * 2^51 + 4` rows the float form gives `2^51 + 1`.
- Frames.Pop: tables with duplicate column labels are not modelled, because
  a `Table` has distinct labels. On a duplicated label pandas' `pop` returns
  a DataFrame, not a Series.
- Row-index labels, dtypes and the difference between label and positional
  indexing are not modelled. The integer slices at `src/data/sets.py:27` are
  taken as positional, and cell values are abstract.
