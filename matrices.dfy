/** The dense matrix the row operations work on.

    The source holds it in a uBLAS `matrix<double>` whose extents are fixed once it is
    built. Here it is an `array2<real>`: `Length0` is the row count (`size1`),
    `Length1` the column count (`size2`), and `m[i, j]` the entry `m(i, j)`. Its
    abstract value is the list of its rows. */
module Matrices {

  /** A matrix as the list of its rows. */
  type Mat = seq<seq<real>>

  /** Every row of `s` has exactly `cols` entries. */
  ghost predicate IsRect(s: Mat, cols: nat) {
    forall i :: 0 <= i < |s| ==> |s[i]| == cols
  }

  /** The rows of `m`, as values. */
  ghost function Entries(m: array2<real>): (s: Mat)
    reads m
    ensures |s| == m.Length0 && IsRect(s, m.Length1)
    ensures forall i, j :: 0 <= i < m.Length0 && 0 <= j < m.Length1 ==> s[i][j] == m[i, j]
  {
    seq(m.Length0, i requires 0 <= i < m.Length0 reads m =>
      seq(m.Length1, j requires 0 <= j < m.Length1 reads m => m[i, j]))
  }

  /** A rectangular list of rows that agrees with `m` entry by entry is `Entries(m)`. */
  lemma EntriesAre(m: array2<real>, s: Mat)
    requires |s| == m.Length0 && IsRect(s, m.Length1)
    requires forall i, j :: 0 <= i < m.Length0 && 0 <= j < m.Length1 ==> s[i][j] == m[i, j]
    ensures Entries(m) == s
  {
    var e := Entries(m);
    forall i | 0 <= i < |s|
      ensures e[i] == s[i]
    {
      assert |e[i]| == |s[i]|;
      assert forall j :: 0 <= j < |s[i]| ==> e[i][j] == s[i][j];
    }
  }

  /** Column `col` of `m`, top to bottom. With no rows no column is ever read, so any
      `col` is then allowed. */
  ghost function Column(m: array2<real>, col: nat): (c: seq<real>)
    reads m
    requires m.Length0 == 0 || col < m.Length1
    ensures |c| == m.Length0
    ensures forall i :: 0 <= i < m.Length0 ==> c[i] == m[i, col]
  {
    seq(m.Length0, i requires 0 <= i < m.Length0 reads m => m[i, col])
  }

  /** Some entry of column `col` of `m` is nonzero. */
  ghost predicate ColumnNonzero(m: array2<real>, col: nat)
    reads m
    requires col < m.Length1
  {
    exists i :: 0 <= i < m.Length0 && m[i, col] != 0.0
  }

  /** Absolute value of a real. */
  function Abs(x: real): (r: real)
    ensures r >= 0.0
    ensures r == x || r == -x
  {
    if x < 0.0 then -x else x
  }
}
