/**
 The ordered (time-based) split of `src/data/sets.py`: the target column is
 popped from a copy of the table, and the rows are cut, in their given order,
 into train, validation and test partitions at the Python slice bounds
 `-cutoff * 2` and `-cutoff`, where `cutoff` is a fifth of the row count.
 */
module Sets {
  import opened PySlice
  import opened Frames

  /** Features and target of the train, validation and test partitions. */
  datatype Split<V> = Split(
    xTrain: Table<V>, yTrain: Column<V>,
    xVal: Table<V>, yVal: Column<V>,
    xTest: Table<V>, yTest: Column<V>)

  /** `subset_x_y`: the same positional slice `[start:end]` of the feature
      table and of the target; aligned inputs give aligned outputs. */
  function SubsetXY<V>(target: Column<V>, features: Table<V>, start: int, end: int): (r: (Table<V>, Column<V>))
    ensures r.0.names == features.names && r.1.name == target.name
    ensures r.0.rows == Slice(features.rows, start, end)
    ensures r.1.values == Slice(target.values, start, end)
    ensures |target.values| == |features.rows| ==> |r.0.rows| == |r.1.values|
  {
    (SliceRows(features, start, end), Column(target.name, Slice(target.values, start, end)))
  }

  /** Row `k` of both outputs of `subset_x_y` is the same input row, number
      `Resolve(start) + k`. */
  lemma SubsetAligned<V>(target: Column<V>, features: Table<V>, start: int, end: int, k: nat)
    requires |target.values| == |features.rows|
    requires k < |SubsetXY(target, features, start, end).1.values|
    ensures var (x, y) := SubsetXY(target, features, start, end);
      var a := Resolve(start, |features.rows|);
      && k < |x.rows| && a + k < |features.rows|
      && x.rows[k] == features.rows[a + k]
      && y.values[k] == target.values[a + k]
  {
    SliceAt(features.rows, start, end, k);
    SliceAt(target.values, start, end, k);
  }

  /** `int(len(target) / 5)`: a fifth of the row count, rounded down. */
  function Cutoff(n: nat): (c: nat)
    ensures 5 * c <= n < 5 * c + 5
  {
    n / 5
  }

  /** The copy-and-pop step of `pop_target` (without its `to_numpy`
      conversion), also the first step of `split_sets_by_time`. The caller's
      table is a value and stays as it is; the result is the column labelled
      `targetCol` and the table with that column removed from its labels and
      from every row; a missing label is a `KeyError`. */
  function PopTarget<V>(df: Table<V>, targetCol: string): (r: Result<(Table<V>, Column<V>)>)
    ensures r.Err? <==> targetCol !in df.names
    ensures r.Err? ==> r.error == KeyError(targetCol)
    ensures r.Ok? ==> var (rest, target) := r.value; var p := IndexOf(df.names, targetCol);
      && p < |df.names| && df.names[p] == targetCol
      && target.name == targetCol
      && target.values == ColumnAt(df, p)
      && rest.names == RemoveAt(df.names, p)
      && |rest.rows| == |df.rows|
      && forall k :: 0 <= k < |df.rows| ==> rest.rows[k] == RemoveAt(df.rows[k], p)
  {
    var copy := df;
    var r := Pop(copy, targetCol);
    if r.Ok? then
      var (rest, target) := r.value;
      var p := IndexOf(df.names, targetCol);
      PoppedParts(rest, target, p, df);
      r
    else r
  }

  /** What `Pop`'s round trip says of each part: the target's values are
      column `p`, and the rest is every row without its entry `p`. */
  lemma PoppedParts<V>(rest: Table<V>, target: Column<V>, p: nat, df: Table<V>)
    requires p < |df.names| && p <= |rest.names|
    requires |target.values| == |rest.rows| == |df.rows|
    requires InsertAt(rest.names, p, df.names[p]) == df.names
    requires Rejoin(rest.rows, p, target.values) == df.rows
    ensures target.values == ColumnAt(df, p)
    ensures rest.names == RemoveAt(df.names, p)
    ensures forall k :: 0 <= k < |df.rows| ==> rest.rows[k] == RemoveAt(df.rows[k], p)
  {
    assert rest.names == RemoveAt(InsertAt(rest.names, p, df.names[p]), p);
    forall k | 0 <= k < |df.rows|
      ensures rest.rows[k] == RemoveAt(df.rows[k], p) && target.values[k] == df.rows[k][p]
    {
      var row := InsertAt(rest.rows[k], p, target.values[k]);
      assert row == Rejoin(rest.rows, p, target.values)[k];
      assert row[p] == target.values[k];
      assert rest.rows[k] == RemoveAt(row, p);
    }
  }

  /** Every column other than the target survives the pop unchanged, in its
      old order: column `q` of the rest is column `q` of the caller's table
      before the target's position `p`, and column `q + 1` from there on. */
  lemma PopTargetKeepsColumns<V>(df: Table<V>, targetCol: string, q: nat)
    requires targetCol in df.names
    requires q + 1 < |df.names|
    ensures PopTarget(df, targetCol).Ok?
    ensures var (rest, _) := PopTarget(df, targetCol).value;
      var p := IndexOf(df.names, targetCol);
      var q' := if q < p then q else q + 1;
      && q < |rest.names|
      && rest.names[q] == df.names[q']
      && ColumnAt(rest, q) == ColumnAt(df, q')
  {
    var (rest, _) := PopTarget(df, targetCol).value;
    var p := IndexOf(df.names, targetCol);
    var q' := if q < p then q else q + 1;
    forall k | 0 <= k < |df.rows| ensures ColumnAt(rest, q)[k] == ColumnAt(df, q')[k] {
      assert rest.rows[k] == RemoveAt(df.rows[k], p);
    }
  }

  /** `split_sets_by_time`. Like `test_ratio`, `testRatio` is accepted and
      never read. */
  function SplitSetsByTime<V>(df: Table<V>, targetCol: string, testRatio: real): (r: Result<Split<V>>)
    ensures r.Err? <==> targetCol !in df.names
    ensures r.Err? ==> r.error == KeyError(targetCol)
  {
    match PopTarget(df, targetCol)
    case Err(e) => Err(e)
    case Ok((features, target)) => Ok(SplitAt(features, target))
  }

  /** The three `subset_x_y` calls of `split_sets_by_time`, at the bounds
      `0`, `-cutoff * 2`, `-cutoff` and `len(target)`. */
  function SplitAt<V>(features: Table<V>, target: Column<V>): (s: Split<V>)
    ensures s.xTrain.names == s.xVal.names == s.xTest.names == features.names
    ensures s.yTrain.name == s.yVal.name == s.yTest.name == target.name
    ensures s.yTrain.values + s.yVal.values + s.yTest.values == target.values
    ensures |features.rows| == |target.values| ==>
      s.xTrain.rows + s.xVal.rows + s.xTest.rows == features.rows
  {
    TimeCutsConcat(target.values);
    TimeCutsConcat(features.rows);
    var cutoff: int := Cutoff(|target.values|);
    var (xTrain, yTrain) := SubsetXY(target, features, 0, -cutoff * 2);
    var (xVal, yVal) := SubsetXY(target, features, -cutoff * 2, -cutoff);
    var (xTest, yTest) := SubsetXY(target, features, -cutoff, |target.values|);
    Split(xTrain, yTrain, xVal, yVal, xTest, yTest)
  }

  /** A split that succeeds is `SplitAt` of what the pop returned. */
  lemma SplitOfPopped<V>(df: Table<V>, targetCol: string, testRatio: real)
    requires targetCol in df.names
    ensures SplitSetsByTime(df, targetCol, testRatio).Ok? && PopTarget(df, targetCol).Ok?
    ensures var (rest, target) := PopTarget(df, targetCol).value;
      && |target.values| == |rest.rows| == |df.rows|
      && SplitSetsByTime(df, targetCol, testRatio).value == SplitAt(rest, target)
  {
  }

  /** Where the two negative bounds land: at `n - 2c` and `n - c` when the
      cutoff is positive, and both at `0` when it is zero, since `-0 == 0`. */
  lemma CutPoints(n: nat)
    ensures var c: int := Cutoff(n);
      && (c > 0 <==> n >= 5)
      && Resolve(-c * 2, n) == (if c == 0 then 0 else n - 2 * c)
      && Resolve(-c, n) == (if c == 0 then 0 else n - c)
      && Resolve(0, n) <= Resolve(-c * 2, n) <= Resolve(-c, n) <= Resolve(n, n) == n
  {
  }

  /** The three slices the split takes of any sequence make up that sequence. */
  lemma TimeCutsConcat<T>(s: seq<T>)
    ensures var c: int := Cutoff(|s|);
      Slice(s, 0, -c * 2) + Slice(s, -c * 2, -c) + Slice(s, -c, |s|) == s
  {
    var n := |s|;
    var c: int := Cutoff(n);
    CutPoints(n);
    SliceAdjacent(s, 0, -c * 2, -c);
    SliceAdjacent(s, 0, -c, n);
    SliceWhole(s);
  }

  /** Train, validation and test of `SplitAt`, read in that order, are the
      table and the target exactly: no row is dropped, repeated or moved, and
      every partition keeps features and target row-aligned. */
  lemma SplitAtPartition<V>(features: Table<V>, target: Column<V>)
    requires |target.values| == |features.rows|
    ensures var s := SplitAt(features, target);
      && s.xTrain.names == s.xVal.names == s.xTest.names == features.names
      && s.yTrain.name == s.yVal.name == s.yTest.name == target.name
      && |s.xTrain.rows| == |s.yTrain.values|
      && |s.xVal.rows| == |s.yVal.values|
      && |s.xTest.rows| == |s.yTest.values|
      && s.yTrain.values + s.yVal.values + s.yTest.values == target.values
      && s.xTrain.rows + s.xVal.rows + s.xTest.rows == features.rows
  {
  }

  /** `split_sets_by_time` keeps the order of the rows and drops, repeats or
      moves none of them: train, validation and test, read in that order, are
      the table without its target column and that column; every partition's
      features and target are row-aligned. */
  lemma SplitPartition<V>(df: Table<V>, targetCol: string, testRatio: real)
    requires targetCol in df.names
    ensures SplitSetsByTime(df, targetCol, testRatio).Ok?
    ensures var s := SplitSetsByTime(df, targetCol, testRatio).value;
      var (rest, target) := PopTarget(df, targetCol).value;
      && s.xTrain.names == s.xVal.names == s.xTest.names == rest.names
      && s.yTrain.name == s.yVal.name == s.yTest.name == targetCol
      && |s.xTrain.rows| == |s.yTrain.values|
      && |s.xVal.rows| == |s.yVal.values|
      && |s.xTest.rows| == |s.yTest.values|
      && s.yTrain.values + s.yVal.values + s.yTest.values == target.values
      && s.xTrain.rows + s.xVal.rows + s.xTest.rows == rest.rows
  {
    SplitOfPopped(df, targetCol, testRatio);
    var (rest, target) := PopTarget(df, targetCol).value;
    SplitAtPartition(rest, target);
  }

  /** Putting each partition's target back into its rows, at the position
      the target column had, and reading the partitions in order gives back
      the caller's table. */
  lemma SplitReassembles<V>(df: Table<V>, targetCol: string, testRatio: real)
    requires targetCol in df.names
    ensures SplitSetsByTime(df, targetCol, testRatio).Ok?
    ensures var s := SplitSetsByTime(df, targetCol, testRatio).value;
      var p := IndexOf(df.names, targetCol);
      && p <= |s.xTrain.names| == |s.xVal.names| == |s.xTest.names|
      && InsertAt(s.xTrain.names, p, targetCol) == df.names
      && |s.xTrain.rows| == |s.yTrain.values|
      && |s.xVal.rows| == |s.yVal.values|
      && |s.xTest.rows| == |s.yTest.values|
      && df.rows == Rejoin(s.xTrain.rows, p, s.yTrain.values)
                  + Rejoin(s.xVal.rows, p, s.yVal.values)
                  + Rejoin(s.xTest.rows, p, s.yTest.values)
  {
    SplitOfPopped(df, targetCol, testRatio);
    var (rest, target) := PopTarget(df, targetCol).value;
    var s := SplitAt(rest, target);
    var p := IndexOf(df.names, targetCol);
    SplitAtPartition(rest, target);
    InsertRemoved(df.names, p);
    assert Rejoin(rest.rows, p, target.values) == df.rows;
    RejoinConcat(s.xTrain.rows, s.yTrain.values, s.xVal.rows, s.yVal.values, p);
    RejoinConcat(s.xTrain.rows + s.xVal.rows, s.yTrain.values + s.yVal.values,
                 s.xTest.rows, s.yTest.values, p);
  }

  /** With at least five rows: train is rows `[0, n - 2c)`, validation rows
      `[n - 2c, n - c)` and test rows `[n - c, n)`, for features and target
      alike. */
  lemma SplitRanges<V>(df: Table<V>, targetCol: string, testRatio: real)
    requires targetCol in df.names && |df.rows| >= 5
    ensures SplitSetsByTime(df, targetCol, testRatio).Ok?
    ensures var s := SplitSetsByTime(df, targetCol, testRatio).value;
      var (rest, target) := PopTarget(df, targetCol).value;
      var n := |df.rows|;
      var c := Cutoff(n);
      && 0 < c && 3 * c <= n - 2 * c
      && s.yTrain.values == target.values[0..n - 2 * c]
      && s.yVal.values == target.values[n - 2 * c..n - c]
      && s.yTest.values == target.values[n - c..n]
      && s.xTrain.rows == rest.rows[0..n - 2 * c]
      && s.xVal.rows == rest.rows[n - 2 * c..n - c]
      && s.xTest.rows == rest.rows[n - c..n]
  {
    SplitOfPopped(df, targetCol, testRatio);
    var (rest, target) := PopTarget(df, targetCol).value;
    var n := |target.values|;
    var c: int := Cutoff(n);
    CutPoints(n);
    SliceIsRange(target.values, 0, -c * 2);
    SliceIsRange(target.values, -c * 2, -c);
    SliceIsRange(target.values, -c, n);
    SliceIsRange(rest.rows, 0, -c * 2);
    SliceIsRange(rest.rows, -c * 2, -c);
    SliceIsRange(rest.rows, -c, n);
  }

  /** With fewer than five rows the cutoff is `0` and both bounds are `-0`,
      that is `0`: train and validation are empty and test is the whole
      table. */
  lemma SplitSmall<V>(df: Table<V>, targetCol: string, testRatio: real)
    requires targetCol in df.names && |df.rows| < 5
    ensures SplitSetsByTime(df, targetCol, testRatio).Ok?
    ensures var s := SplitSetsByTime(df, targetCol, testRatio).value;
      var (rest, target) := PopTarget(df, targetCol).value;
      && Cutoff(|df.rows|) == 0
      && s.xTrain.rows == [] && s.yTrain.values == []
      && s.xVal.rows == [] && s.yVal.values == []
      && s.yTest.values == target.values
      && s.xTest.rows == rest.rows
  {
    SplitOfPopped(df, targetCol, testRatio);
    var (rest, target) := PopTarget(df, targetCol).value;
    SliceToMinusZero(target.values, 0);
    SliceToMinusZero(rest.rows, 0);
    SliceWhole(target.values);
    SliceWhole(rest.rows);
  }

  /** Partition sizes: validation and test have `cutoff` rows each and train
      the remaining `n - 2 * cutoff`, at least `3 * cutoff`, when there are
      five rows or more; for a multiple of five that is `3n/5`, `n/5`, `n/5`. */
  lemma SplitSizes<V>(df: Table<V>, targetCol: string, testRatio: real)
    requires targetCol in df.names
    ensures SplitSetsByTime(df, targetCol, testRatio).Ok?
    ensures var s := SplitSetsByTime(df, targetCol, testRatio).value;
      var n := |df.rows|;
      var c := Cutoff(n);
      && |s.yTrain.values| + |s.yVal.values| + |s.yTest.values| == n
      && (n >= 5 ==> |s.yTrain.values| == n - 2 * c >= 3 * c && |s.yVal.values| == c && |s.yTest.values| == c)
      && (n < 5 ==> |s.yTrain.values| == 0 && |s.yVal.values| == 0 && |s.yTest.values| == n)
      && (n % 5 == 0 ==> 5 * |s.yTrain.values| == 3 * n && 5 * |s.yVal.values| == n && 5 * |s.yTest.values| == n)
  {
    SplitOfPopped(df, targetCol, testRatio);
    CutPoints(|df.rows|);
  }

  /** `testRatio` has no effect on the partition. */
  lemma SplitIgnoresTestRatio<V>(df: Table<V>, targetCol: string, r1: real, r2: real)
    ensures SplitSetsByTime(df, targetCol, r1) == SplitSetsByTime(df, targetCol, r2)
  {
  }
}
