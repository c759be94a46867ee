/** The part of a pandas DataFrame the saturation cut relies on: rows that carry an
    index label, DataFrame.drop by label, and reset_index(drop=True). */
module Frames {

  /** The columns of one observation row. The cut reads only the apparent magnitude
      and the filter; every other column is carried through untouched. */
  datatype Observation = Observation(observedPSFMag: real, optFilter: string, otherColumns: seq<string>)

  /** A row of the table: its index label and its columns. */
  datatype Row = Row(index: int, obs: Observation)

  type Frame = seq<Row>

  /** The columns of a frame, row by row, without the index. */
  function Observations(f: Frame): seq<Observation>
  {
    seq(|f|, i requires 0 <= i < |f| => f[i].obs)
  }

  predicate UniqueLabels(f: Frame)
  {
    forall i, j :: 0 <= i < j < |f| ==> f[i].index != f[j].index
  }

  /** The index is 0, 1, ..., |f| - 1: what reset_index leaves behind. */
  predicate DenselyNumbered(f: Frame)
  {
    forall i :: 0 <= i < |f| ==> f[i].index == i
  }

  /** s is obtained from t by deleting some elements and keeping the order of the rest. */
  predicate SubsequenceOf<T(==)>(s: seq<T>, t: seq<T>)
    decreases |t|
  {
    if t == [] then s == []
    else (s != [] && s[0] == t[0] && SubsequenceOf(s[1..], t[1..])) || SubsequenceOf(s, t[1..])
  }

  /** DataFrame.drop(labels): every row whose label is listed goes (all of them when a
      label repeats), the others stay in their order. */
  function Drop(f: Frame, labels: seq<int>): (r: Frame)
    ensures |r| <= |f|
    ensures forall row :: row in r <==> row in f && row.index !in labels
  {
    if f == [] then []
    else if f[0].index in labels then Drop(f[1..], labels)
    else [f[0]] + Drop(f[1..], labels)
  }

  /** The rows Drop keeps are the input's rows, unchanged and in their order. */
  lemma {:induction false} DropKeepsOrder(f: Frame, labels: seq<int>)
    ensures SubsequenceOf(Observations(Drop(f, labels)), Observations(f))
  {
    if f != [] {
      DropKeepsOrder(f[1..], labels);
      assert Observations(f)[1..] == Observations(f[1..]);
      if f[0].index !in labels {
        var d := Drop(f[1..], labels);
        assert Observations([f[0]] + d)[1..] == Observations(d);
      }
    }
  }

  /** Dropping labels that no row carries changes nothing. */
  lemma {:induction false} DropNothing(f: Frame, labels: seq<int>)
    requires forall i :: 0 <= i < |f| ==> f[i].index !in labels
    ensures Drop(f, labels) == f
  {
    if f != [] {
      DropNothing(f[1..], labels);
    }
  }

  /** reset_index(drop=True): the rows keep their columns and their order and are
      relabelled 0, 1, ..., k - 1. */
  function ResetIndex(f: Frame): (r: Frame)
    ensures DenselyNumbered(r)
    ensures Observations(r) == Observations(f)
  {
    seq(|f|, i requires 0 <= i < |f| => Row(i, f[i].obs))
  }

  /** Renumbering a frame that is already numbered 0..k-1 changes nothing. */
  lemma ResetIndexOfNumbered(f: Frame)
    requires DenselyNumbered(f)
    ensures ResetIndex(f) == f
  {
  }
}
