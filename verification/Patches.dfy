/** Copying new values over the named columns of one row. Nothing checks the size of a value, so one
  wider than its column reaches over the bytes behind it. */
module Patches {
  import opened Bytes
  import opened Tables

  /** New values for the columns named by `sel`, each of which stays inside the row. */
  predicate Updates(sel: Comparable, bufs: seq<Buf>, width: nat) {
    |bufs| == |sel| && forall i :: 0 <= i < |sel| ==> sel[i].col.loc + |bufs[i]| <= width
  }

  function Patch(row: Buf, sel: Comparable, bufs: seq<Buf>, n: nat): (r: Buf)
    requires Comparables(sel, |row|) && Updates(sel, bufs, |row|) && n <= |sel|
    ensures |r| == |row|
  {
    if n == 0 then row
    else Splice(Patch(row, sel, bufs, n - 1), sel[n - 1].col.loc, bufs[n - 1])
  }

  lemma PatchNext(row: Buf, sel: Comparable, bufs: seq<Buf>, n: nat)
    requires Comparables(sel, |row|) && Updates(sel, bufs, |row|) && n < |sel|
    ensures sel[n].col.loc + |bufs[n]| <= |row|
    ensures Patch(row, sel, bufs, 0) == row
    ensures Patch(row, sel, bufs, n + 1) == Splice(Patch(row, sel, bufs, n), sel[n].col.loc, bufs[n])
  {
  }

  // ---- Bytes of a patched row ----

  /** Value `i` reaches byte `k`, counted from the start of the row. */
  predicate Covers(sel: Comparable, bufs: seq<Buf>, i: nat, k: nat)
    requires |bufs| == |sel| && i < |sel|
  {
    sel[i].col.loc <= k < sel[i].col.loc + |bufs[i]|
  }

  /** A value behind `i` in the list reaches byte `k`. */
  predicate CoveredAfter(sel: Comparable, bufs: seq<Buf>, i: nat, k: nat)
    requires |bufs| == |sel|
  {
    exists j :: i < j < |sel| && Covers(sel, bufs, j, k)
  }

  lemma PatchStep(row: Buf, sel: Comparable, bufs: seq<Buf>, n: nat, k: nat)
    requires Comparables(sel, |row|) && Updates(sel, bufs, |row|) && n < |sel| && k < |row|
    ensures Patch(row, sel, bufs, n + 1)[k] ==
      if Covers(sel, bufs, n, k) then bufs[n][k - sel[n].col.loc] else Patch(row, sel, bufs, n)[k]
  {
  }

  /** Byte `k` is left alone by the conditions from `m` to `n`. */
  lemma {:induction false} PatchLeaves(row: Buf, sel: Comparable, bufs: seq<Buf>, m: nat, n: nat, k: nat)
    requires Comparables(sel, |row|) && Updates(sel, bufs, |row|) && m <= n <= |sel| && k < |row|
    requires forall i :: m <= i < n ==> !Covers(sel, bufs, i, k)
    ensures Patch(row, sel, bufs, n)[k] == Patch(row, sel, bufs, m)[k]
  {
    hide Patch, Covers;
    if m == n {
    } else {
      PatchLeaves(row, sel, bufs, m, n - 1, k);
      PatchStep(row, sel, bufs, n - 1, k);
    }
  }

  /** A byte of an updated row is as the last value to reach it has it. */
  lemma PatchSets(row: Buf, sel: Comparable, bufs: seq<Buf>, i: nat, k: nat)
    requires Comparables(sel, |row|) && Updates(sel, bufs, |row|) && k < |row|
    requires i < |sel| && Covers(sel, bufs, i, k) && !CoveredAfter(sel, bufs, i, k)
    ensures Patch(row, sel, bufs, |sel|)[k] == bufs[i][k - sel[i].col.loc]
  {
    hide Patch;
    PatchLeaves(row, sel, bufs, i + 1, |sel|, k);
    PatchStep(row, sel, bufs, i, k);
  }

  /** A byte that no value reaches is as it was. */
  lemma PatchElsewhere(row: Buf, sel: Comparable, bufs: seq<Buf>, k: nat)
    requires Comparables(sel, |row|) && Updates(sel, bufs, |row|) && k < |row|
    requires forall i :: 0 <= i < |sel| ==> !Covers(sel, bufs, i, k)
    ensures Patch(row, sel, bufs, |sel|)[k] == row[k]
  {
    hide Covers, Comparables;
    PatchLeaves(row, sel, bufs, 0, |sel|, k);
  }

  /** The last value to reach byte `k`, if one behind `i` does. */
  lemma {:induction false} LastCover(sel: Comparable, bufs: seq<Buf>, i: nat, k: nat) returns (j: nat)
    requires |bufs| == |sel| && CoveredAfter(sel, bufs, i, k)
    ensures i < j < |sel| && Covers(sel, bufs, j, k) && !CoveredAfter(sel, bufs, j, k)
    decreases |sel| - i
  {
    j :| i < j < |sel| && Covers(sel, bufs, j, k);
    if CoveredAfter(sel, bufs, j, k) {
      j := LastCover(sel, bufs, j, k);
    }
  }

  // ---- Looking for the new values ----

  predicate SameSizes(bufs: seq<Buf>, bufs': seq<Buf>) {
    |bufs| == |bufs'| && forall i :: 0 <= i < |bufs| ==> |bufs[i]| == |bufs'[i]|
  }

  /** Every value is exactly as wide as its column. */
  predicate FullWidth(sel: Comparable, bufs: seq<Buf>) {
    |bufs| == |sel| && forall i :: 0 <= i < |sel| ==> |bufs[i]| == sel[i].col.typsz
  }

  lemma FullStays(sel: Comparable, bufs: seq<Buf>, width: nat)
    requires Comparables(sel, width) && FullWidth(sel, bufs)
    ensures Updates(sel, bufs, width)
  {
    forall i | 0 <= i < |sel| ensures sel[i].col.loc + |bufs[i]| <= width {
      assert sel[i] in sel;
    }
  }

  /** Every value fills its column, so that it can be compared with it. */
  predicate FillsColumns(sel: Comparable, bufs: seq<Buf>) {
    |bufs| == |sel| && forall i :: 0 <= i < |sel| ==> sel[i].col.typsz <= |bufs[i]|
  }

  /** The conditions that ask for the new values. */
  function Renewed(sel: Comparable, bufs: seq<Buf>): Comparable
    requires |bufs| == |sel|
  {
    seq(|sel|, i requires 0 <= i < |sel| => Cond(sel[i].col, bufs[i]))
  }

  lemma RenewedComparable(sel: Comparable, bufs: seq<Buf>, width: nat)
    requires Comparables(sel, width) && FillsColumns(sel, bufs)
    ensures Comparables(Renewed(sel, bufs), width)
  {
    var sel' := Renewed(sel, bufs);
    forall c <- sel' ensures InRow(c.col, width) && c.col.typsz <= |c.val| {
      var i :| 0 <= i < |sel'| && sel'[i] == c;
      assert sel[i] in sel;
    }
  }

  predicate InColumn(sel: Comparable, i: nat, k: nat)
    requires i < |sel|
  {
    sel[i].col.loc <= k < sel[i].col.loc + sel[i].col.typsz
  }

  /** No value reaches a column that was named before it. */
  ghost predicate ColumnsKept(sel: Comparable, bufs: seq<Buf>)
    requires |bufs| == |sel|
  {
    forall i: nat, k: nat :: i < |sel| && InColumn(sel, i, k) ==> !CoveredAfter(sel, bufs, i, k)
  }

  /** The patched row meets the conditions that ask for the new values. */
  predicate FindsNew(row: Buf, sel: Comparable, bufs: seq<Buf>)
    requires Comparables(sel, |row|) && Updates(sel, bufs, |row|) && FillsColumns(sel, bufs)
  {
    RenewedComparable(sel, bufs, |row|);
    Matches(Patch(row, sel, bufs, |sel|), Renewed(sel, bufs))
  }

  lemma ColumnByte(sel: Comparable, bufs: seq<Buf>, width: nat, i: nat, k: nat)
    requires Comparables(sel, width) && FillsColumns(sel, bufs) && i < |sel| && InColumn(sel, i, k)
    ensures |bufs| == |sel| && k < width && Covers(sel, bufs, i, k)
  {
    assert sel[i] in sel;
  }

  lemma KeptAt(sel: Comparable, bufs: seq<Buf>, i: nat, k: nat)
    requires |bufs| == |sel| && ColumnsKept(sel, bufs) && i < |sel| && InColumn(sel, i, k)
    ensures !CoveredAfter(sel, bufs, i, k)
  {
  }

  lemma NewByte(row: Buf, sel: Comparable, bufs: seq<Buf>, i: nat, k: nat)
    requires Comparables(sel, |row|) && Updates(sel, bufs, |row|) && FillsColumns(sel, bufs) && ColumnsKept(sel, bufs)
    requires i < |sel| && InColumn(sel, i, k)
    ensures k < |row| && k - sel[i].col.loc < |bufs[i]|
    ensures Patch(row, sel, bufs, |sel|)[k] == bufs[i][k - sel[i].col.loc]
  {
    hide Patch, CoveredAfter, ColumnsKept, Comparables, Updates, FillsColumns;
    ColumnByte(sel, bufs, |row|, i, k);
    KeptAt(sel, bufs, i, k);
    PatchSets(row, sel, bufs, i, k);
  }

  lemma EqualSlices(b: Buf, at: nat, x: Buf, n: nat)
    requires at + n <= |b| && n <= |x| && forall k :: 0 <= k < n ==> b[at + k] == x[k]
    ensures b[at..at + n] == x[..n]
  {
  }

  /** A row meets the conditions that ask for the new values if it has their bytes. */
  lemma BytesMatch(row: Buf, sel: Comparable, bufs: seq<Buf>)
    requires Comparables(sel, |row|) && FillsColumns(sel, bufs) && Comparables(Renewed(sel, bufs), |row|)
    requires forall i: nat, k: nat :: i < |sel| && InColumn(sel, i, k) ==>
      k < |row| && Covers(sel, bufs, i, k) && row[k] == bufs[i][k - sel[i].col.loc]
    ensures Matches(row, Renewed(sel, bufs))
  {
    forall c <- Renewed(sel, bufs) ensures Hit(row, c) {
      var i :| 0 <= i < |sel| && Renewed(sel, bufs)[i] == c;
      forall k | 0 <= k < c.col.typsz ensures row[c.col.loc + k] == c.val[k] {
        assert InColumn(sel, i, c.col.loc + k);
      }
      EqualSlices(row, c.col.loc, c.val, c.col.typsz);
    }
  }

  lemma KeptFindsNew(row: Buf, sel: Comparable, bufs: seq<Buf>)
    requires Comparables(sel, |row|) && Updates(sel, bufs, |row|) && FillsColumns(sel, bufs) && ColumnsKept(sel, bufs)
    ensures FindsNew(row, sel, bufs)
  {
    hide Patch, ColumnsKept, Updates, InColumn, Matches;
    RenewedComparable(sel, bufs, |row|);
    forall i: nat, k: nat | i < |sel| && InColumn(sel, i, k)
      ensures k < |row| && Covers(sel, bufs, i, k)
      ensures Patch(row, sel, bufs, |sel|)[k] == bufs[i][k - sel[i].col.loc]
    {
      ColumnByte(sel, bufs, |row|, i, k);
      NewByte(row, sel, bufs, i, k);
    }
    BytesMatch(Patch(row, sel, bufs, |sel|), sel, bufs);
  }

  lemma HitByte(row: Buf, c: Cond, k: nat)
    requires InRow(c.col, |row|) && c.col.typsz <= |c.val| && Hit(row, c) && k < c.col.typsz
    ensures row[c.col.loc + k] == c.val[k]
  {
    assert row[c.col.loc..c.col.loc + c.col.typsz][k] == c.val[..c.col.typsz][k];
  }

  /** Zeros up to value `i`, ones in all values behind it. */
  function ZerosThenOnes(bufs: seq<Buf>, i: nat): seq<Buf> {
    seq(|bufs|, j requires 0 <= j < |bufs| => seq(|bufs[j]|, _ => if j <= i then 0 else 1))
  }

  lemma SizesCover(sel: Comparable, bufs: seq<Buf>, b: seq<Buf>, j: nat, k: nat)
    requires |bufs| == |sel| && SameSizes(bufs, b) && j < |sel|
    ensures Covers(sel, b, j, k) == Covers(sel, bufs, j, k)
    ensures CoveredAfter(sel, b, j, k) == CoveredAfter(sel, bufs, j, k)
  {
    assert forall i :: 0 <= i < |sel| ==> Covers(sel, b, i, k) == Covers(sel, bufs, i, k);
  }

  lemma SizesKeep(sel: Comparable, bufs: seq<Buf>, b: seq<Buf>)
    requires |bufs| == |sel| && SameSizes(bufs, b)
    ensures ColumnsKept(sel, bufs) == ColumnsKept(sel, b)
  {
    hide CoveredAfter;
    forall i: nat, k: nat | i < |sel| ensures CoveredAfter(sel, b, i, k) == CoveredAfter(sel, bufs, i, k) {
      SizesCover(sel, bufs, b, i, k);
    }
  }

  lemma FoundByte(row: Buf, sel: Comparable, bufs: seq<Buf>, i: nat, k: nat)
    requires Comparables(sel, |row|) && FillsColumns(sel, bufs) && Comparables(Renewed(sel, bufs), |row|)
    requires Matches(row, Renewed(sel, bufs)) && i < |sel| && InColumn(sel, i, k)
    ensures k < |row| && Covers(sel, bufs, i, k) && row[k] == bufs[i][k - sel[i].col.loc]
  {
    hide Hit;
    ColumnByte(sel, bufs, |row|, i, k);
    var c := Renewed(sel, bufs)[i];
    assert c in Renewed(sel, bufs);
    HitByte(row, c, k - c.col.loc);
  }

  lemma ZerosAndOnes(sel: Comparable, bufs: seq<Buf>, width: nat, i: nat)
    requires |bufs| == |sel|
    ensures var b := ZerosThenOnes(bufs, i);
      && SameSizes(bufs, b)
      && (Updates(sel, bufs, width) ==> Updates(sel, b, width))
      && (FillsColumns(sel, bufs) ==> FillsColumns(sel, b))
      && forall j, k :: 0 <= j < |b| && 0 <= k < |b[j]| ==> b[j][k] == if j <= i then 0 else 1
  {
  }

  lemma LostByte(row: Buf, sel: Comparable, bufs: seq<Buf>, i: nat, k: nat)
    requires Comparables(sel, |row|) && Updates(sel, bufs, |row|) && k < |row|
    requires |bufs| == |sel| && i < |sel| && CoveredAfter(sel, bufs, i, k)
    ensures var b := ZerosThenOnes(bufs, i);
      Updates(sel, b, |row|) && Patch(row, sel, b, |sel|)[k] == 1
  {
    hide Patch, CoveredAfter, Comparables, ZerosThenOnes, Updates;
    var b := ZerosThenOnes(bufs, i);
    ZerosAndOnes(sel, bufs, |row|, i);
    var j := LastCover(sel, bufs, i, k);
    SizesCover(sel, bufs, b, j, k);
    PatchSets(row, sel, b, j, k);
  }

  lemma LostColumn(row: Buf, sel: Comparable, bufs: seq<Buf>, i: nat, k: nat)
    requires Comparables(sel, |row|) && Updates(sel, bufs, |row|) && FillsColumns(sel, bufs)
    requires i < |sel| && InColumn(sel, i, k) && CoveredAfter(sel, bufs, i, k)
    ensures var b := ZerosThenOnes(bufs, i);
      SameSizes(bufs, b) && Updates(sel, b, |row|) && FillsColumns(sel, b) && !FindsNew(row, sel, b)
  {
    hide Patch, CoveredAfter, Comparables, Matches, InColumn, Renewed, ZerosThenOnes, Updates;
    var b := ZerosThenOnes(bufs, i);
    ZerosAndOnes(sel, bufs, |row|, i);
    ColumnByte(sel, bufs, |row|, i, k);
    LostByte(row, sel, bufs, i, k);
    RenewedComparable(sel, b, |row|);
    if FindsNew(row, sel, b) {
      FoundByte(Patch(row, sel, b, |sel|), sel, b, i, k);
    }
  }

  /** Every patched row has the new values in the named columns, for all values of these sizes. */
  ghost predicate AlwaysFindsNew(sel: Comparable, bufs: seq<Buf>, width: nat)
    requires Comparables(sel, width) && Updates(sel, bufs, width) && FillsColumns(sel, bufs)
  {
    forall row: Buf, b: seq<Buf> | |row| == width && SameSizes(bufs, b) :: FindsNew(row, sel, b)
  }

  lemma KeptAlways(sel: Comparable, bufs: seq<Buf>, width: nat)
    requires Comparables(sel, width) && Updates(sel, bufs, width) && FillsColumns(sel, bufs) && ColumnsKept(sel, bufs)
    ensures AlwaysFindsNew(sel, bufs, width)
  {
    hide FindsNew, ColumnsKept;
    forall row: Buf, b: seq<Buf> | |row| == width && SameSizes(bufs, b) ensures FindsNew(row, sel, b) {
      SizesKeep(sel, bufs, b);
      KeptFindsNew(row, sel, b);
    }
  }

  /** For values that fill their columns and stay in the row: looking for the new values finds every
    patched row, for all values of these sizes, if and only if no value reaches a column named before
    it. */
  lemma RenewedIff(sel: Comparable, bufs: seq<Buf>, width: nat)
    requires Comparables(sel, width) && Updates(sel, bufs, width) && FillsColumns(sel, bufs)
    ensures AlwaysFindsNew(sel, bufs, width) <==> ColumnsKept(sel, bufs)
  {
    hide FindsNew, CoveredAfter, InColumn, Comparables, Updates;
    if ColumnsKept(sel, bufs) {
      KeptAlways(sel, bufs, width);
    } else {
      var i: nat, k: nat :| i < |sel| && InColumn(sel, i, k) && CoveredAfter(sel, bufs, i, k);
      var row: Buf := seq(width, _ => 0);
      LostColumn(row, sel, bufs, i, k);
    }
  }

  /** Columns that lie apart are kept by values of exactly their width. */
  lemma ApartKept(sel: Comparable, bufs: seq<Buf>)
    requires FullWidth(sel, bufs)
    requires forall i, j :: 0 <= i < j < |sel| ==>
      sel[j].col.loc + sel[j].col.typsz <= sel[i].col.loc || sel[i].col.loc + sel[i].col.typsz <= sel[j].col.loc
    ensures ColumnsKept(sel, bufs)
  {
  }
}
