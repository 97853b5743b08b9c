/**
 The tabular values the split works on. A feature table has an ordered
 sequence of column labels and an ordered sequence of rows, each row holding
 one value per column in label order; a target series is one labelled column.
 Cell values are abstract (`V`); dtypes and the row index are not modelled.
 */
module Frames {
  import opened PySlice

  datatype Column<V> = Column(name: string, values: seq<V>)

  datatype Frame<V> = Frame(names: seq<string>, rows: seq<seq<V>>)

  /** Every row has one value per column. */
  predicate Rectangular<V>(f: Frame<V>) {
    forall k :: 0 <= k < |f.rows| ==> |f.rows[k]| == |f.names|
  }

  /** No two columns share a label. */
  predicate Unique(names: seq<string>) {
    forall a, b :: 0 <= a < b < |names| ==> names[a] != names[b]
  }

  /** A table: rectangular, with distinct labels. */
  type Table<V> = f: Frame<V> | Rectangular(f) && Unique(f.names) witness Frame([], [])

  /** The values of column number `p`, top to bottom. */
  function ColumnAt<V>(f: Table<V>, p: nat): (vs: seq<V>)
    requires p < |f.names|
    ensures |vs| == |f.rows|
    ensures forall k :: 0 <= k < |vs| ==> vs[k] == f.rows[k][p]
  {
    seq(|f.rows|, k requires 0 <= k < |f.rows| => f.rows[k][p])
  }

  /** Positional row slicing `frame[i:j]`: the same labels, the rows `[i:j]`. */
  function SliceRows<V>(f: Table<V>, i: int, j: int): (g: Table<V>)
    ensures g.names == f.names
    ensures g.rows == Slice(f.rows, i, j)
  {
    var rows := Slice(f.rows, i, j);
    assert forall k :: 0 <= k < |rows| ==> rows[k] == f.rows[Resolve(i, |f.rows|) + k] by {
      forall k | 0 <= k < |rows| ensures rows[k] == f.rows[Resolve(i, |f.rows|) + k] {
        SliceAt(f.rows, i, j, k);
      }
    }
    Frame(f.names, rows)
  }

  /** The position of label `name`, or `|names|` when there is none. */
  function IndexOf(names: seq<string>, name: string): (p: nat)
    ensures p <= |names|
    ensures p < |names| ==> names[p] == name
    ensures p == |names| ==> name !in names
  {
    if names == [] then 0
    else if names[0] == name then 0
    else 1 + IndexOf(names[1..], name)
  }

  function RemoveAt<T>(s: seq<T>, p: nat): (r: seq<T>)
    requires p < |s|
    ensures |r| == |s| - 1
  {
    s[..p] + s[p + 1..]
  }

  function InsertAt<T>(s: seq<T>, p: nat, x: T): (r: seq<T>)
    requires p <= |s|
    ensures |r| == |s| + 1
  {
    s[..p] + [x] + s[p..]
  }

  /** Putting back what `RemoveAt` took out restores the sequence. */
  lemma InsertRemoved<T>(s: seq<T>, p: nat)
    requires p < |s|
    ensures InsertAt(RemoveAt(s, p), p, s[p]) == s
  {
    assert RemoveAt(s, p)[..p] == s[..p];
    assert RemoveAt(s, p)[p..] == s[p + 1..];
  }

  /** Each row with the value `vs[k]` put back at position `p`: the inverse,
      row by row, of taking column `p` out of a table. */
  function Rejoin<V>(rows: seq<seq<V>>, p: nat, vs: seq<V>): (r: seq<seq<V>>)
    requires |rows| == |vs|
    requires forall k :: 0 <= k < |rows| ==> p <= |rows[k]|
    ensures |r| == |rows|
  {
    seq(|rows|, k requires 0 <= k < |rows| => InsertAt(rows[k], p, vs[k]))
  }

  /** Rejoining parts one by one is rejoining their concatenation. */
  lemma RejoinConcat<V>(rows1: seq<seq<V>>, vs1: seq<V>, rows2: seq<seq<V>>, vs2: seq<V>, p: nat)
    requires |rows1| == |vs1| && |rows2| == |vs2|
    requires forall k :: 0 <= k < |rows1| ==> p <= |rows1[k]|
    requires forall k :: 0 <= k < |rows2| ==> p <= |rows2[k]|
    ensures Rejoin(rows1, p, vs1) + Rejoin(rows2, p, vs2) == Rejoin(rows1 + rows2, p, vs1 + vs2)
  {
    var rows, vs := rows1 + rows2, vs1 + vs2;
    forall k | 0 <= k < |rows|
      ensures (Rejoin(rows1, p, vs1) + Rejoin(rows2, p, vs2))[k] == Rejoin(rows, p, vs)[k]
    {
      if k < |rows1| {
        assert rows[k] == rows1[k] && vs[k] == vs1[k];
      } else {
        assert rows[k] == rows2[k - |rows1|] && vs[k] == vs2[k - |rows1|];
      }
    }
  }

  /** A missing column label. */
  datatype Error = KeyError(key: string)

  datatype Result<+T> = Ok(value: T) | Err(error: Error)

  /** `DataFrame.pop(name)` on a table of its own: takes the column labelled
      `name` out and returns what is left together with that column; a
      missing label is a `KeyError`. Putting the column back where it was
      gives the table again. */
  function Pop<V>(f: Table<V>, name: string): (r: Result<(Table<V>, Column<V>)>)
    ensures r.Err? <==> name !in f.names
    ensures r.Err? ==> r.error == KeyError(name)
    ensures r.Ok? ==> var (rest, col) := r.value; var p := IndexOf(f.names, name);
      && col.name == name
      && name !in rest.names
      && |col.values| == |rest.rows| == |f.rows|
      && p <= |rest.names|
      && InsertAt(rest.names, p, name) == f.names
      && Rejoin(rest.rows, p, col.values) == f.rows
  {
    var p := IndexOf(f.names, name);
    if p == |f.names| then Err(KeyError(name))
    else
      var names := RemoveAt(f.names, p);
      var rows := seq(|f.rows|, k requires 0 <= k < |f.rows| => RemoveAt(f.rows[k], p));
      var col := Column(name, ColumnAt(f, p));
      InsertRemoved(f.names, p);
      NameRemoved(f.names, p);
      forall k | 0 <= k < |f.rows| ensures Rejoin(rows, p, col.values)[k] == f.rows[k] {
        InsertRemoved(f.rows[k], p);
      }
      var rest: Table<V> := Frame(names, rows);
      Ok((rest, col))
  }

  /** Removing the entry at `p` from distinct labels leaves distinct labels,
      none of them `names[p]`. */
  lemma NameRemoved(names: seq<string>, p: nat)
    requires Unique(names) && p < |names|
    ensures Unique(RemoveAt(names, p)) && names[p] !in RemoveAt(names, p)
  {
    var r := RemoveAt(names, p);
    assert forall a :: 0 <= a < |r| ==> r[a] == names[if a < p then a else a + 1];
  }
}
