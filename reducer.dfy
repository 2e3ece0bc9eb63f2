/** The elementary row operations and the pivot searches of the row reducer
    (reducer/reducer/main.cpp).

    Each row operation is a method that changes the matrix in place, column by column,
    and promises that the matrix's rows afterwards are a specification function of its
    rows before. The lemmas below are about those specification functions: what the
    operations undo, when they change nothing, and that they keep the solutions of the
    homogeneous system the rows describe. */
module Reducer {
  import opened Matrices

  // ---------------------------------------------------------------------------
  // Specification functions on rows and matrices
  // ---------------------------------------------------------------------------

  /** `src` times `f`, added entry by entry to `dst`. */
  function Combine(src: seq<real>, f: real, dst: seq<real>): (r: seq<real>)
    requires |src| == |dst|
    ensures |r| == |dst|
  {
    seq(|dst|, j requires 0 <= j < |dst| => src[j] * f + dst[j])
  }

  /** Every entry of `row` times `f`. */
  function Scale(row: seq<real>, f: real): (r: seq<real>)
    ensures |r| == |row|
  {
    seq(|row|, j requires 0 <= j < |row| => row[j] * f)
  }

  /** The matrix with rows `r1` and `r2` exchanged: the rows are only reordered. */
  function Interchanged(s: Mat, r1: nat, r2: nat): (t: Mat)
    requires r1 < |s| && r2 < |s|
    ensures |t| == |s|
    ensures multiset(t) == multiset(s)
  {
    s[r1 := s[r2]][r2 := s[r1]]
  }

  /** The matrix with `f` times row `r1` added to row `r2`. */
  function MultipleAdded(s: Mat, r1: nat, f: real, r2: nat): (t: Mat)
    requires r1 < |s| && r2 < |s| && |s[r1]| == |s[r2]|
    ensures |t| == |s|
    ensures forall i :: 0 <= i < |s| ==> |t[i]| == |s[i]|
  {
    s[r2 := Combine(s[r1], f, s[r2])]
  }

  /** The matrix with row `r` multiplied by `f`. */
  function RowScaled(s: Mat, r: nat, f: real): (t: Mat)
    requires r < |s|
    ensures |t| == |s|
    ensures forall i :: 0 <= i < |s| ==> |t[i]| == |s[i]|
  {
    s[r := Scale(s[r], f)]
  }

  // ---------------------------------------------------------------------------
  // The row operations (main.cpp:12-40)
  // ---------------------------------------------------------------------------

  /** rowInterchange: swaps rows `row1` and `row2` through a copy of `row2`. */
  method RowInterchange(m: array2<real>, row1: nat, row2: nat)
    requires row1 < m.Length0 && row2 < m.Length0
    modifies m
    ensures forall j :: 0 <= j < m.Length1 ==>
      m[row1, j] == old(m[row2, j]) && m[row2, j] == old(m[row1, j])
    ensures forall i, j :: 0 <= i < m.Length0 && 0 <= j < m.Length1 && i != row1 && i != row2 ==>
      m[i, j] == old(m[i, j])
    ensures Entries(m) == Interchanged(old(Entries(m)), row1, row2)
  {
    var oldRow := new real[m.Length1];
    for i := 0 to m.Length1
      invariant forall j :: 0 <= j < i ==> oldRow[j] == old(m[row2, j]) && m[row2, j] == old(m[row1, j])
      invariant forall j :: i <= j < m.Length1 ==> m[row2, j] == old(m[row2, j])
      invariant forall k, j :: 0 <= k < m.Length0 && 0 <= j < m.Length1 && k != row2 ==>
        m[k, j] == old(m[k, j])
    {
      oldRow[i] := m[row2, i];
      m[row2, i] := m[row1, i];
    }
    for i := 0 to m.Length1
      invariant forall j :: 0 <= j < m.Length1 ==> oldRow[j] == old(m[row2, j])
      invariant forall j :: 0 <= j < i ==> m[row1, j] == old(m[row2, j])
      invariant forall j :: i <= j < m.Length1 ==> m[row1, j] == old(m[row1, j])
      invariant row1 != row2 ==> forall j :: 0 <= j < m.Length1 ==> m[row2, j] == old(m[row1, j])
      invariant forall k, j :: 0 <= k < m.Length0 && 0 <= j < m.Length1 && k != row1 && k != row2 ==>
        m[k, j] == old(m[k, j])
    {
      m[row1, i] := oldRow[i];
    }
    EntriesAre(m, Interchanged(old(Entries(m)), row1, row2));
  }

  /** addMultiple: adds `factor` times row `row1` to row `row2`. */
  method AddMultiple(m: array2<real>, row1: nat, factor: real, row2: nat)
    requires row1 < m.Length0 && row2 < m.Length0
    modifies m
    ensures forall j :: 0 <= j < m.Length1 ==> m[row2, j] == old(m[row1, j]) * factor + old(m[row2, j])
    ensures forall i, j :: 0 <= i < m.Length0 && 0 <= j < m.Length1 && i != row2 ==>
      m[i, j] == old(m[i, j])
    ensures Entries(m) == MultipleAdded(old(Entries(m)), row1, factor, row2)
  {
    for i := 0 to m.Length1
      invariant forall j :: 0 <= j < i ==> m[row2, j] == old(m[row1, j]) * factor + old(m[row2, j])
      invariant forall j :: i <= j < m.Length1 ==> m[row2, j] == old(m[row2, j])
      invariant forall k, j :: 0 <= k < m.Length0 && 0 <= j < m.Length1 && k != row2 ==>
        m[k, j] == old(m[k, j])
    {
      m[row2, i] := m[row1, i] * factor + m[row2, i];
    }
    EntriesAre(m, MultipleAdded(old(Entries(m)), row1, factor, row2));
  }

  /** scaleRow: multiplies every entry of row `row` by `factor`. */
  method ScaleRow(m: array2<real>, row: nat, factor: real)
    requires row < m.Length0
    modifies m
    ensures forall j :: 0 <= j < m.Length1 ==> m[row, j] == old(m[row, j]) * factor
    ensures forall i, j :: 0 <= i < m.Length0 && 0 <= j < m.Length1 && i != row ==>
      m[i, j] == old(m[i, j])
    ensures Entries(m) == RowScaled(old(Entries(m)), row, factor)
  {
    for i := 0 to m.Length1
      invariant forall j :: 0 <= j < i ==> m[row, j] == old(m[row, j]) * factor
      invariant forall j :: i <= j < m.Length1 ==> m[row, j] == old(m[row, j])
      invariant forall k, j :: 0 <= k < m.Length0 && 0 <= j < m.Length1 && k != row ==>
        m[k, j] == old(m[k, j])
    {
      m[row, i] := m[row, i] * factor;
    }
    EntriesAre(m, RowScaled(old(Entries(m)), row, factor));
  }

  // ---------------------------------------------------------------------------
  // What the row operations undo and when they change nothing
  // ---------------------------------------------------------------------------

  /** Interchanging a row with itself changes nothing. */
  lemma InterchangeSelf(s: Mat, r: nat)
    requires r < |s|
    ensures Interchanged(s, r, r) == s
  {
  }

  /** Interchanging the same two rows twice restores the matrix. */
  lemma InterchangeTwice(s: Mat, r1: nat, r2: nat)
    requires r1 < |s| && r2 < |s|
    ensures Interchanged(Interchanged(s, r1, r2), r1, r2) == s
  {
  }

  /** Adding zero times a row changes nothing. */
  lemma AddMultipleZero(s: Mat, r1: nat, r2: nat)
    requires r1 < |s| && r2 < |s| && |s[r1]| == |s[r2]|
    ensures MultipleAdded(s, r1, 0.0, r2) == s
  {
    assert Combine(s[r1], 0.0, s[r2]) == s[r2];
  }

  /** Adding `f` times another row, then `-f` times it, restores the matrix. */
  lemma AddMultipleUndo(s: Mat, r1: nat, f: real, r2: nat)
    requires r1 < |s| && r2 < |s| && |s[r1]| == |s[r2]| && r1 != r2
    ensures MultipleAdded(MultipleAdded(s, r1, f, r2), r1, -f, r2) == s
  {
    var t := MultipleAdded(s, r1, f, r2);
    assert Combine(t[r1], -f, t[r2]) == s[r2];
  }

  /** Adding a multiple of a row to itself scales it by one plus the factor. */
  lemma AddMultipleSameRow(s: Mat, r: nat, f: real)
    requires r < |s|
    ensures MultipleAdded(s, r, f, r) == RowScaled(s, r, 1.0 + f)
  {
    var row := s[r];
    forall j | 0 <= j < |row|
      ensures Combine(row, f, row)[j] == Scale(row, 1.0 + f)[j]
    {
      assert row[j] * f + row[j] == row[j] * (1.0 + f);
    }
    assert Combine(row, f, row) == Scale(row, 1.0 + f);
  }

  /** Scaling by one changes nothing. */
  lemma ScaleRowOne(s: Mat, r: nat)
    requires r < |s|
    ensures RowScaled(s, r, 1.0) == s
  {
    assert Scale(s[r], 1.0) == s[r];
  }

  /** Scaling by zero turns the row into zeros and leaves the others alone. */
  lemma ScaleRowZero(s: Mat, r: nat)
    requires r < |s|
    ensures forall j :: 0 <= j < |s[r]| ==> RowScaled(s, r, 0.0)[r][j] == 0.0
    ensures forall i :: 0 <= i < |s| && i != r ==> RowScaled(s, r, 0.0)[i] == s[i]
  {
  }

  /** Scaling by a nonzero `k` and then by `1/k` restores the matrix. */
  lemma ScaleRowUndo(s: Mat, r: nat, k: real)
    requires r < |s| && k != 0.0
    ensures RowScaled(RowScaled(s, r, k), r, 1.0 / k) == s
  {
    var once := Scale(s[r], k);
    forall j | 0 <= j < |s[r]|
      ensures once[j] * (1.0 / k) == s[r][j]
    {
      calc {
        once[j] * (1.0 / k);
        (s[r][j] * k) * (1.0 / k);
        s[r][j] * (k * (1.0 / k));
        s[r][j];
      }
    }
    assert forall j :: 0 <= j < |s[r]| ==> Scale(once, 1.0 / k)[j] == s[r][j];
    assert Scale(once, 1.0 / k) == s[r];
  }

  // ---------------------------------------------------------------------------
  // The row operations keep the solutions of the homogeneous system
  // ---------------------------------------------------------------------------

  /** Dot product of a row with a vector of unknowns. */
  function Dot(a: seq<real>, x: seq<real>): (d: real)
    requires |a| == |x|
  {
    if |a| == 0 then 0.0 else a[0] * x[0] + Dot(a[1..], x[1..])
  }

  /** `x` solves every equation `row . x = 0` that a row of `s` stands for. */
  ghost predicate Solves(s: Mat, x: seq<real>) {
    forall i :: 0 <= i < |s| ==> |s[i]| == |x| && Dot(s[i], x) == 0.0
  }

  /** The dot product is linear in the row: combining rows combines their products. */
  lemma {:induction false} DotCombine(a: seq<real>, f: real, b: seq<real>, x: seq<real>)
    requires |a| == |b| == |x|
    ensures Dot(Combine(a, f, b), x) == f * Dot(a, x) + Dot(b, x)
  {
    if |a| > 0 {
      var c := Combine(a, f, b);
      assert forall j :: 0 <= j < |c| - 1 ==> c[1..][j] == Combine(a[1..], f, b[1..])[j];
      assert c[1..] == Combine(a[1..], f, b[1..]);
      DotCombine(a[1..], f, b[1..], x[1..]);
      assert c[0] == a[0] * f + b[0];
      calc {
        Dot(c, x);
        c[0] * x[0] + Dot(c[1..], x[1..]);
        (a[0] * f + b[0]) * x[0] + (f * Dot(a[1..], x[1..]) + Dot(b[1..], x[1..]));
        f * (a[0] * x[0] + Dot(a[1..], x[1..])) + (b[0] * x[0] + Dot(b[1..], x[1..]));
        f * Dot(a, x) + Dot(b, x);
      }
    }
  }

  /** The dot product of a scaled row is the scaled dot product. */
  lemma {:induction false} DotScale(a: seq<real>, f: real, x: seq<real>)
    requires |a| == |x|
    ensures Dot(Scale(a, f), x) == f * Dot(a, x)
  {
    if |a| > 0 {
      var c := Scale(a, f);
      assert forall j :: 0 <= j < |c| - 1 ==> c[1..][j] == Scale(a[1..], f)[j];
      assert c[1..] == Scale(a[1..], f);
      DotScale(a[1..], f, x[1..]);
      calc {
        Dot(c, x);
        c[0] * x[0] + Dot(c[1..], x[1..]);
        (a[0] * f) * x[0] + f * Dot(a[1..], x[1..]);
        f * (a[0] * x[0] + Dot(a[1..], x[1..]));
      }
    }
  }

  /** An interchange keeps exactly the solutions. */
  lemma InterchangeKeepsSolutions(s: Mat, r1: nat, r2: nat, x: seq<real>)
    requires r1 < |s| && r2 < |s|
    ensures Solves(Interchanged(s, r1, r2), x) <==> Solves(s, x)
  {
    var t := Interchanged(s, r1, r2);
    if Solves(s, x) {
      forall i | 0 <= i < |t|
        ensures |t[i]| == |x| && Dot(t[i], x) == 0.0
      {
        var k := if i == r2 then r1 else if i == r1 then r2 else i;
        assert t[i] == s[k];
      }
    }
    if Solves(t, x) {
      forall i | 0 <= i < |s|
        ensures |s[i]| == |x| && Dot(s[i], x) == 0.0
      {
        var k := if i == r2 then r1 else if i == r1 then r2 else i;
        assert s[i] == t[k];
      }
    }
  }

  /** For any factor and any two rows, the same row included, every solution of the
      rows before adding a multiple is still a solution afterwards. */
  lemma AddMultipleKeepsOldSolutions(s: Mat, r1: nat, f: real, r2: nat, x: seq<real>)
    requires r1 < |s| && r2 < |s| && |s[r1]| == |s[r2]|
    requires Solves(s, x)
    ensures Solves(MultipleAdded(s, r1, f, r2), x)
  {
    DotCombine(s[r1], f, s[r2], x);
  }

  /** For any factor, zero included, every solution of the rows before scaling a row is
      still a solution afterwards. */
  lemma ScaleRowKeepsOldSolutions(s: Mat, r: nat, k: real, x: seq<real>)
    requires r < |s|
    requires Solves(s, x)
    ensures Solves(RowScaled(s, r, k), x)
  {
    DotScale(s[r], k, x);
  }

  /** Adding a multiple of one row to another, different row keeps exactly the solutions. */
  lemma AddMultipleKeepsSolutions(s: Mat, r1: nat, f: real, r2: nat, x: seq<real>)
    requires r1 < |s| && r2 < |s| && |s[r1]| == |s[r2]| && r1 != r2
    ensures Solves(MultipleAdded(s, r1, f, r2), x) <==> Solves(s, x)
  {
    var t := MultipleAdded(s, r1, f, r2);
    if |s[r1]| == |x| {
      DotCombine(s[r1], f, s[r2], x);
    }
    if Solves(t, x) {
      assert |s[r2]| == |x| && Dot(s[r2], x) == 0.0 by {
        assert t[r1] == s[r1];
        assert Dot(t[r2], x) == f * Dot(s[r1], x) + Dot(s[r2], x);
      }
      forall i | 0 <= i < |s|
        ensures |s[i]| == |x| && Dot(s[i], x) == 0.0
      {
        if i != r2 {
          assert s[i] == t[i];
        }
      }
    }
  }

  /** Scaling a row by a nonzero factor keeps exactly the solutions. */
  lemma ScaleRowKeepsSolutions(s: Mat, r: nat, k: real, x: seq<real>)
    requires r < |s| && k != 0.0
    ensures Solves(RowScaled(s, r, k), x) <==> Solves(s, x)
  {
    var t := RowScaled(s, r, k);
    if |s[r]| == |x| {
      DotScale(s[r], k, x);
    }
    if Solves(t, x) {
      forall i | 0 <= i < |s|
        ensures |s[i]| == |x| && Dot(s[i], x) == 0.0
      {
        if i != r {
          assert s[i] == t[i];
        }
      }
    }
  }

  // ---------------------------------------------------------------------------
  // getLeftMostCol (main.cpp:43-55)
  // ---------------------------------------------------------------------------

  /** getLeftMostCol: scans column `col`, sets the flag when it holds a nonzero entry and,
      while the flag is still clear, goes on with the next column. `found` is the flag on
      entry and `found'` the flag on return. The source never stops at the last column,
      so when the flag starts clear some column at or after `col` must be nonzero. */
  method GetLeftMostCol(m: array2<real>, found: bool, col: nat) returns (found': bool, c: nat)
    requires m.Length0 == 0 || col < m.Length1
    requires found || exists k :: col <= k < m.Length1 && ColumnNonzero(m, k)
    ensures found'
    ensures found ==> c == col
    ensures !found ==> col <= c < m.Length1 && ColumnNonzero(m, c)
    ensures !found ==> forall k :: col <= k < c ==> !ColumnNonzero(m, k)
    decreases m.Length1 - col
  {
    found' := found;
    for i := 0 to m.Length0
      invariant found' <==> found || exists r :: 0 <= r < i && m[r, col] != 0.0
    {
      if m[i, col] != 0.0 {
        found' := true;
      }
    }
    c := col;
    if !found' {
      assert !ColumnNonzero(m, col);
      found', c := GetLeftMostCol(m, found', col + 1);
    }
  }

  // ---------------------------------------------------------------------------
  // getRowLarEnInCol (main.cpp:59-69), as written
  // ---------------------------------------------------------------------------

  /** The value getRowLarEnInCol holds in `row` after it has scanned the entries `c`
      of a column, top to bottom: an entry whose absolute value exceeds the current
      `row`, read as a number, makes its own index the new `row`. */
  function PivotScan(c: seq<real>): (r: nat)
    ensures |c| == 0 ==> r == 0
    ensures |c| > 0 ==> r < |c|
  {
    if |c| == 0 then 0
    else
      var before := PivotScan(c[..|c| - 1]);
      if Abs(c[|c| - 1]) > before as real then |c| - 1 else before
  }

  /** Every entry after the chosen row is, in absolute value, at most the chosen row's index. */
  lemma {:induction false} PivotScanLater(c: seq<real>)
    ensures forall j :: PivotScan(c) < j < |c| ==> Abs(c[j]) <= PivotScan(c) as real
  {
    if |c| > 0 {
      var p := c[..|c| - 1];
      PivotScanLater(p);
      assert forall j :: 0 <= j < |p| ==> p[j] == c[j];
    }
  }

  /** A chosen row other than row 0 holds a nonzero entry. */
  lemma {:induction false} PivotScanChosen(c: seq<real>)
    ensures PivotScan(c) > 0 ==> Abs(c[PivotScan(c)]) > 0.0
  {
    if |c| > 0 {
      var p := c[..|c| - 1];
      PivotScanChosen(p);
    }
  }

  /** Row 0 is chosen exactly when every entry below row 0 is zero. */
  lemma {:induction false} PivotScanZero(c: seq<real>)
    ensures PivotScan(c) == 0 <==> forall j :: 0 < j < |c| ==> c[j] == 0.0
  {
    PivotScanLater(c);
    if |c| > 0 {
      var p := c[..|c| - 1];
      PivotScanZero(p);
      assert forall j :: 0 <= j < |p| ==> p[j] == c[j];
    }
  }

  /** getRowLarEnInCol: the row index the scan over column `col` ends with. */
  method GetRowLarEnInCol(m: array2<real>, col: nat) returns (row: nat)
    requires m.Length0 == 0 || col < m.Length1
    ensures row == PivotScan(Column(m, col))
    ensures m.Length0 == 0 ==> row == 0
    ensures m.Length0 > 0 ==> row < m.Length0
    ensures row == 0 <==> forall j :: 0 < j < m.Length0 ==> m[j, col] == 0.0
    ensures row > 0 ==> Abs(m[row, col]) > 0.0
    ensures forall j :: row < j < m.Length0 ==> Abs(m[j, col]) <= row as real
  {
    ghost var c := Column(m, col);
    row := 0;
    for i := 0 to m.Length0
      invariant row == PivotScan(c[..i])
    {
      assert c[..i + 1][..i] == c[..i];
      if Abs(m[i, col]) > row as real {
        row := i;
      }
    }
    assert c[..m.Length0] == c;
    PivotScanLater(c);
    PivotScanChosen(c);
    PivotScanZero(c);
  }

  /** The scan can pass over the entry of largest absolute value: on the column [3, 2]
      it ends on row 1, whose entry is smaller than row 0's. Both entries are whole
      numbers, so the outcome is the same whether `abs` works on doubles or integers. */
  lemma PivotScanMissesLargest()
    ensures PivotScan([3.0, 2.0]) == 1
    ensures Abs([3.0, 2.0][1]) < Abs([3.0, 2.0][0])
  {
    assert [3.0, 2.0][..1] == [3.0];
    assert [3.0][..0] == [];
  }

  /** The search getRowLarEnInCol's comment describes: the row holding the entry of
      largest absolute value in column `col` (the first such row on a tie). */
  method RowLargestEntryInCol(m: array2<real>, col: nat) returns (row: nat)
    requires m.Length0 == 0 || col < m.Length1
    ensures m.Length0 == 0 ==> row == 0
    ensures m.Length0 > 0 ==> row < m.Length0
    ensures m.Length0 > 0 ==> forall j :: 0 <= j < m.Length0 ==> Abs(m[j, col]) <= Abs(m[row, col])
    ensures m.Length0 > 0 ==> forall j :: 0 <= j < row ==> Abs(m[j, col]) < Abs(m[row, col])
  {
    row := 0;
    var largest := 0.0;
    for i := 0 to m.Length0
      invariant i == 0 ==> row == 0 && largest == 0.0
      invariant i > 0 ==> row < i && largest == Abs(m[row, col])
      invariant forall j :: 0 <= j < i ==> Abs(m[j, col]) <= largest
      invariant forall j :: 0 <= j < row ==> Abs(m[j, col]) < largest
    {
      if Abs(m[i, col]) > largest {
        row, largest := i, Abs(m[i, col]);
      }
    }
  }
}
