/**
 Python's `s[i:j]` on a sequence, with both bounds given: notes (3) and (4) of
 the "Common Sequence Operations" table of the Python Standard Library
 reference. A negative bound counts from the end (`len + i`), and `-0` is just
 `0`; a bound still outside `[0, len]` is clamped into it; the slice is empty
 when the resolved start is not below the resolved end.
 */
module PySlice {

  /** The position a slice bound `i` stands for in a sequence of length `len`. */
  function Resolve(i: int, len: nat): (k: nat)
    ensures k <= len
    ensures 0 <= i <= len ==> k == i
    ensures i < 0 && len + i >= 0 ==> k == len + i
    ensures i > len ==> k == len
    ensures len + i < 0 ==> k == 0
  {
    if i < 0 then
      (if len + i < 0 then 0 else len + i)
    else if i > len then len
    else i
  }

  /** The number of elements `s[i:j]` has when `|s| == len`. */
  function Width(i: int, j: int, len: nat): (w: nat)
    ensures Resolve(i, len) + w <= len
    ensures w == 0 <==> Resolve(j, len) <= Resolve(i, len)
    ensures Resolve(i, len) < Resolve(j, len) ==> w == Resolve(j, len) - Resolve(i, len)
  {
    var a, b := Resolve(i, len), Resolve(j, len);
    if a >= b then 0 else b - a
  }

  /** `s[i:j]`. */
  function Slice<T>(s: seq<T>, i: int, j: int): (r: seq<T>)
    ensures |r| == Width(i, j, |s|)
  {
    var a, b := Resolve(i, |s|), Resolve(j, |s|);
    if a >= b then [] else s[a..b]
  }

  /** Element `k` of `s[i:j]` is element `Resolve(i) + k` of `s`. */
  lemma SliceAt<T>(s: seq<T>, i: int, j: int, k: nat)
    requires k < Width(i, j, |s|)
    ensures Slice(s, i, j)[k] == s[Resolve(i, |s|) + k]
  {
  }

  /** Between in-range resolved bounds, `s[i:j]` is Dafny's `s[a..b]`. */
  lemma SliceIsRange<T>(s: seq<T>, i: int, j: int)
    requires Resolve(i, |s|) <= Resolve(j, |s|)
    ensures Slice(s, i, j) == s[Resolve(i, |s|)..Resolve(j, |s|)]
  {
  }

  /** Two slices that meet at `j` make up the slice that spans both. */
  lemma SliceAdjacent<T>(s: seq<T>, i: int, j: int, k: int)
    requires Resolve(i, |s|) <= Resolve(j, |s|) <= Resolve(k, |s|)
    ensures Slice(s, i, j) + Slice(s, j, k) == Slice(s, i, k)
  {
    var a, b, c := Resolve(i, |s|), Resolve(j, |s|), Resolve(k, |s|);
    SliceIsRange(s, i, j);
    SliceIsRange(s, j, k);
    SliceIsRange(s, i, k);
    assert s[a..c] == s[a..b] + s[b..c];
  }

  /** `s[0:len(s)]` is a copy of `s`. */
  lemma SliceWhole<T>(s: seq<T>)
    ensures Slice(s, 0, |s|) == s
  {
  }

  /** Because `-0 == 0`, an end bound of `-0` ends the slice at the front: the
      slice is empty whatever the start. */
  lemma SliceToMinusZero<T>(s: seq<T>, i: int)
    ensures Slice(s, i, -0) == []
  {
  }
}
